/** Fixed-width integers and the failure-compatible types shared by every module. */
module Primitives {

  type u8 = x: int | 0 <= x < 0x100
  type u16 = x: int | 0 <= x < 0x1_0000
  type u32 = x: int | 0 <= x < 0x1_0000_0000
  type u64 = x: int | 0 <= x < 0x1_0000_0000_0000_0000
  type u128 = x: int | 0 <= x < 0x1_0000_0000_0000_0000_0000_0000_0000_0000

  // The supported targets are 64-bit.
  type usize = u64

  const U32_MAX: u32 := 0xFFFF_FFFF
  const U64_MAX: u64 := 0xFFFF_FFFF_FFFF_FFFF
  const USIZE_MAX: usize := U64_MAX

  function SaturatingSucc(n: u64): u64 {
    if n == U64_MAX then n else n + 1
  }

  /** Large invariants are sealed: `forall x :: Unsealed(seal, x) ==> Body()` says the same as `Body()`,
      but the solver looks inside only in proofs that mention `Unsealed` with that seal. */
  datatype Seal =
    | FaithfulSeal | ValidSeal | ExplainedSeal | PendingSeal | ForwardSeal | RollbackSeal | BatchSeal
    | SoundSeal | ConcludedSeal | WritesSeal | LaidSeal | PlottedSeal
    | LinkedSeal | CoherentSeal | GrownSeal | ShrunkSeal | GrowingSeal | ThinningSeal | RemovedSeal | RecordedSeal
    | AllocatedSeal | RuleSeal | OrderSeal | RewritingSeal | FreezableSeal | FrozenSeal | RefusedSeal
    | ReportSeal | AimSeal | ScannedSeal | HoldsSeal | UnderwaySeal | ListingSeal | CatalogSeal | CrashSeal | FrameSeal | EndSeal | TurnSeal

  predicate Unsealed(seal: Seal, x: int) { true }

  /** The same with a key for the subject of the invariant. */
  predicate UnsealedAt<T>(seal: Seal, subject: T, x: int) { true }

  datatype Option<+T> = None | Some(value: T)

  datatype Result<+T, +E> = Success(value: T) | Failure(error: E) {
    predicate IsFailure() { Failure? }

    function PropagateFailure<U>(): Result<U, E>
      requires Failure?
    {
      Failure(error)
    }

    function Extract(): T
      requires Success?
    {
      value
    }
  }
}
