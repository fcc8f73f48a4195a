// Shared vocabulary of the Zircon kernel and driver interfaces: status codes,
// fixed-width unsigned arithmetic and page rounding.
module Zx {

  /** The zx_status_t values the modelled code returns or passes through.
      `Other` stands for a status produced by a collaborator this model does not
      look into (a syscall, a hardware call) whose exact value does not matter. */
  datatype Status =
    | Ok
    | ErrInternal
    | ErrNotSupported
    | ErrNoResources
    | ErrNoMemory
    | ErrInvalidArgs
    | ErrWrongType
    | ErrBadState
    | ErrNotFound
    | ErrOutOfRange
    | ErrBufferTooSmall
    | ErrAccessDenied
    | ErrIoDataIntegrity
    | ErrNoSpace
    | ErrUnavailable
    | ErrTimedOut
    | Other(code: int)

  datatype Option<T> = None | Some(value: T)

  datatype Result<T> = Success(value: T) | Failure(status: Status)
  {
    predicate IsFailure() { Failure? }
  }

  const U8_MOD: nat := 0x100
  const U32_MOD: nat := 0x1_0000_0000
  const U32_MAX: nat := 0xFFFF_FFFF
  const U64_MOD: nat := 0x1_0000_0000_0000_0000

  /** PAGE_SIZE on both architectures Zircon runs on (x86-64 and arm64). */
  const PAGE_SIZE: nat := 4096
  const PAGE_SIZE_SHIFT: nat := 12

  /** Unsigned C arithmetic on uint32_t operands: the result wraps modulo 2^32. */
  function Add32(a: nat, b: nat): (r: nat)
    ensures r < U32_MOD && r <= a + b
    ensures a + b < U32_MOD ==> r == a + b
  {
    (a + b) % U32_MOD
  }

  function Sub32(a: nat, b: nat): (r: nat)
    requires a < U32_MOD && b < U32_MOD
    ensures r < U32_MOD
    ensures b <= a ==> r == a - b
    ensures a < b ==> r == U32_MOD + a - b
  {
    (a - b) % U32_MOD
  }

  function Add64(a: nat, b: nat): (r: nat)
    ensures r < U64_MOD
    ensures a + b < U64_MOD ==> r == a + b
  {
    (a + b) % U64_MOD
  }

  function Mul32(a: nat, b: nat): (r: nat)
    ensures r < U32_MOD
    ensures a * b < U32_MOD ==> r == a * b
  {
    (a * b) % U32_MOD
  }

  /** Unsigned subtraction on size_t operands of a 64-bit target. */
  function Sub64(a: nat, b: nat): (r: nat)
    requires a < U64_MOD && b < U64_MOD
    ensures r < U64_MOD
    ensures b <= a ==> r == a - b
    ensures a < b ==> r == U64_MOD + a - b
  {
    (a - b) % U64_MOD
  }

  /** The C idiom (x + d - 1) / d, computed without wrap-around. */
  function CeilDiv(x: nat, d: nat): (r: nat)
    requires d > 0
    ensures r * d >= x
    ensures r == 0 || (r - 1) * d < x
  {
    (x + d - 1) / d
  }

  /** ROUNDUP(x, d) / fbl::round_up: the least multiple of d that is >= x. */
  function RoundUp(x: nat, d: nat): (r: nat)
    requires d > 0
    ensures r >= x && r % d == 0
    ensures r < x + d
  {
    var q := CeilDiv(x, d);
    MultipleMod(q, d);
    assert q == 0 || q * d == (q - 1) * d + d;
    q * d
  }

  lemma MulMono(a: int, b: int, d: nat)
    requires a <= b
    ensures a * d <= b * d
  {
    assert b * d - a * d == (b - a) * d;
  }

  lemma DivMono(a: nat, b: nat, d: nat)
    requires d > 0 && a <= b
    ensures a / d <= b / d
  {
    if a / d > b / d {
      MulMono(b / d + 1, a / d, d);
      assert false;
    }
  }

  /** Euclidean division is determined by any quotient/remainder pair. */
  lemma DivModUnique(a: nat, d: nat, q: nat, r: nat)
    requires d > 0 && r < d && a == q * d + r
    ensures a / d == q && a % d == r
  {
    var q' := a / d;
    if q' > q {
      MulMono(q + 1, q', d);
      assert false;
    } else if q' < q {
      MulMono(q' + 1, q, d);
      assert false;
    }
  }

  /** A uint32_t sum that carries out once loses exactly 2^32. */
  lemma Add32Wraps(a: nat, b: nat)
    requires U32_MOD <= a + b < 2 * U32_MOD
    ensures Add32(a, b) == a + b - U32_MOD
  {
    DivModUnique(a + b, U32_MOD, 1, a + b - U32_MOD);
  }

  lemma MultipleMod(q: nat, d: nat)
    requires d > 0
    ensures (q * d) % d == 0
  {
    DivModUnique(q * d, d, q, 0);
  }

  /** CeilDiv(x, d) is the q with (q - 1) * d < x <= q * d. */
  lemma CeilDivValue(x: nat, d: nat, q: nat)
    requires d > 0 && q > 0 && (q - 1) * d < x <= q * d
    ensures CeilDiv(x, d) == q
  {
    DivModUnique(x + d - 1, d, q, x + d - 1 - q * d);
  }

  predicate PageAligned(x: nat) { x % PAGE_SIZE == 0 }

  function Min(a: nat, b: nat): nat { if a <= b then a else b }

  // Sequence identities the solver is cheaper at when handed them.

  lemma Assoc<T>(a: seq<T>, b: seq<T>, c: seq<T>)
    ensures (a + b) + c == a + (b + c)
  {
  }

  lemma AppendNothing<T>(a: seq<T>)
    ensures a + [] == a
  {
  }
}
