// Bytes, bits and the fields built from them, shared by every codec in the project.

module Basics {
  type byte = x: int | 0 <= x < 256
  type bit = x: int | 0 <= x < 2

  const NEWLINE: byte := 0x0A
  const SPACE: byte := 0x20
  const QUOTE: byte := 0x22
  const STAR: byte := 0x2A
  const SLASH: byte := 0x2F
  const COLON: byte := 0x3A
  const BACKSLASH: byte := 0x5C

  datatype Result<+T, +E> = Ok(value: T) | Err(error: E) {
    predicate IsFailure() {
      Err?
    }

    function PropagateFailure<U>(): Result<U, E>
      requires Err?
    {
      Err(error)
    }

    function Extract(): T
      requires Ok?
    {
      value
    }
  }

  datatype Option<+T> = None | Some(value: T)

  /** What a read at some position gives: the value and where the next read starts. */
  datatype Reading<+T, +E> = Got(value: T, end: nat) | Fail(error: E) {
    predicate IsFailure() {
      Fail?
    }

    function PropagateFailure<U>(): Reading<U, E>
      requires Fail?
    {
      Fail(error)
    }

    function Extract(): (T, nat)
      requires Got?
    {
      (value, end)
    }
  }

  /** A method's result and final cursor are the ones a specification function gives. */
  ghost predicate Agrees<T, E>(r: Result<T, E>, pos: nat, spec: Reading<T, E>) {
    match spec
    case Got(value, end) => r == Ok(value) && pos == end
    case Fail(error) => r == Err(error)
  }

  /** A loop's results so far, put before what is still to come. */
  ghost function Prepend<T, E>(done: seq<T>, rest: Result<seq<T>, E>): Result<seq<T>, E> {
    match rest
    case Ok(more) => Ok(done + more)
    case Err(error) => Err(error)
  }

  lemma PrependNothing<T, E>(rest: Result<seq<T>, E>)
    ensures Prepend([], rest) == rest
  {
    if rest.Ok? {
      assert [] + rest.value == rest.value;
    }
  }

  lemma PrependTwice<T, E>(a: seq<T>, b: seq<T>, rest: Result<seq<T>, E>)
    ensures Prepend(a, Prepend(b, rest)) == Prepend(a + b, rest)
  {
    if rest.Ok? {
      assert a + (b + rest.value) == (a + b) + rest.value;
    }
  }

  function Pow2(n: nat): (r: nat)
    ensures r > 0
  {
    if n == 0 then 1 else 2 * Pow2(n - 1)
  }

  lemma {:induction false} Pow2Adds(a: nat, b: nat)
    ensures Pow2(a + b) == Pow2(a) * Pow2(b)
  {
    if a == 0 {
    } else {
      Pow2Adds(a - 1, b);
      assert Pow2(a + b) == 2 * Pow2(a - 1 + b);
      assert 2 * (Pow2(a - 1) * Pow2(b)) == (2 * Pow2(a - 1)) * Pow2(b);
    }
  }

  /** `part` stands at index `p` of `s`. */
  ghost predicate At<T>(s: seq<T>, p: nat, part: seq<T>) {
    p + |part| <= |s| && s[p..p + |part|] == part
  }

  lemma AtSplits<T>(s: seq<T>, p: nat, a: seq<T>, b: seq<T>)
    ensures At(s, p, a + b) <==> At(s, p, a) && At(s, p + |a|, b)
  {
    var whole := a + b;
    if At(s, p, whole) {
      assert s[p..p + |a|] == s[p..p + |whole|][..|a|] == a;
      assert s[p + |a|..p + |a| + |b|] == s[p..p + |whole|][|a|..] == b;
    }
    if At(s, p, a) && At(s, p + |a|, b) {
      assert s[p..p + |whole|] == s[p..p + |a|] + s[p + |a|..p + |a| + |b|];
    }
  }

  lemma NothingStands<T>(s: seq<T>, p: nat)
    requires p <= |s|
    ensures At(s, p, [])
  {
  }

  lemma SliceStands<T>(s: seq<T>, from: nat, to: nat)
    requires from <= to <= |s|
    ensures At(s, from, s[from..to])
  {
  }

  lemma OneStands<T>(s: seq<T>, p: nat, x: T)
    ensures At(s, p, [x]) <==> p < |s| && s[p] == x
  {
    if p < |s| {
      assert s[p..p + 1] == [s[p]];
    }
  }

  lemma AtIndex<T>(s: seq<T>, p: nat, part: seq<T>, i: nat)
    requires At(s, p, part) && i < |part|
    ensures s[p + i] == part[i]
  {
    assert s[p..p + |part|][i] == s[p + i];
  }

  /** What stands in a slice stands in the whole. */
  lemma AtInSlice<T>(s: seq<T>, from: nat, p: nat, part: seq<T>)
    requires from <= |s|
    ensures At(s[from..], p, part) <==> At(s, from + p, part)
  {
    if from + p + |part| <= |s| {
      assert s[from..][p..p + |part|] == s[from + p..from + p + |part|];
    }
  }
}

// A byte string read as bits, least-significant bit of each byte first
// (section 3.1.1 of RFC 1951).
module BitStrings {
  import opened Basics

  function BitAt(data: seq<byte>, p: nat): bit
    requires p < 8 * |data|
  {
    (data[p / 8] / Pow2(p % 8)) % 2
  }

  function Unpack(data: seq<byte>): (s: seq<bit>)
    ensures |s| == 8 * |data|
  {
    seq(8 * |data|, p requires 0 <= p < 8 * |data| => BitAt(data, p))
  }

  /** A field packed least-significant bit first: every field but a Huffman code. */
  function Lsb(bits: seq<bit>): nat {
    if bits == [] then 0 else bits[0] + 2 * Lsb(bits[1..])
  }

  function LsbBits(value: nat, count: nat): (bits: seq<bit>)
    ensures |bits| == count
  {
    if count == 0 then [] else [value % 2] + LsbBits(value / 2, count - 1)
  }

  /** A Huffman code: most-significant bit first. */
  function Msb(bits: seq<bit>): nat {
    if bits == [] then 0 else 2 * Msb(bits[..|bits| - 1]) + bits[|bits| - 1]
  }

  function MsbBits(value: nat, count: nat): (bits: seq<bit>)
    ensures |bits| == count
  {
    if count == 0 then [] else MsbBits(value / 2, count - 1) + [value % 2]
  }

  lemma {:induction false} LsbOfBits(value: nat, count: nat)
    requires value < Pow2(count)
    ensures Lsb(LsbBits(value, count)) == value
  {
    if count == 0 {
    } else {
      LsbOfBits(value / 2, count - 1);
      assert LsbBits(value, count)[1..] == LsbBits(value / 2, count - 1);
    }
  }

  lemma {:induction false} BitsOfLsb(bits: seq<bit>)
    ensures Lsb(bits) < Pow2(|bits|)
    ensures LsbBits(Lsb(bits), |bits|) == bits
  {
    if bits == [] {
    } else {
      BitsOfLsb(bits[1..]);
      assert Lsb(bits) / 2 == Lsb(bits[1..]) && Lsb(bits) % 2 == bits[0];
      assert bits == [bits[0]] + bits[1..];
    }
  }

  lemma {:induction false} LsbAppends(bits: seq<bit>, last: bit)
    ensures Lsb(bits + [last]) == Lsb(bits) + last * Pow2(|bits|)
  {
    if bits == [] {
      assert (bits + [last])[1..] == [];
    } else {
      LsbAppends(bits[1..], last);
      assert (bits + [last])[1..] == bits[1..] + [last];
      assert last * Pow2(|bits|) == 2 * (last * Pow2(|bits| - 1));
    }
  }

  lemma {:induction false} BitsOfMsb(bits: seq<bit>)
    ensures Msb(bits) < Pow2(|bits|)
    ensures MsbBits(Msb(bits), |bits|) == bits
  {
    if bits == [] {
    } else {
      var init := bits[..|bits| - 1];
      BitsOfMsb(init);
      assert Msb(bits) / 2 == Msb(init) && Msb(bits) % 2 == bits[|bits| - 1];
      assert bits == init + [bits[|bits| - 1]];
    }
  }

  /** The first `k` bits of a code are the code shifted right by the rest. */
  lemma {:induction false} MsbPrefix(value: nat, count: nat, k: nat)
    requires k <= count && value < Pow2(count)
    ensures Msb(MsbBits(value, count)[..k]) == value / Pow2(count - k)
    decreases count
  {
    var bits := MsbBits(value, count);
    if k == count {
      assert bits[..k] == bits;
      if count > 0 {
        MsbPrefix(value / 2, count - 1, count - 1);
        assert bits[..count - 1] == MsbBits(value / 2, count - 1)[..count - 1];
      }
    } else {
      MsbPrefix(value / 2, count - 1, k);
      assert bits[..k] == MsbBits(value / 2, count - 1)[..k];
      HalvingDivides(value, Pow2(count - 1 - k));
    }
  }

  lemma HalvingDivides(value: nat, d: nat)
    requires d > 0
    ensures (value / 2) / d == value / (2 * d)
  {
    var q := value / (2 * d);
    var r := value % (2 * d);
    assert value == q * (2 * d) + r;
    assert q * (2 * d) == 2 * (q * d);
    assert value / 2 == q * d + r / 2;
    DivideUnique(value / 2, d, q, r / 2);
  }

  lemma DivideUnique(value: nat, d: nat, q: nat, r: nat)
    requires d > 0 && r < d && value == q * d + r
    ensures value / d == q
  {
    var gap := q - value / d;
    assert gap * d == value % d - r;
    NoMultipleBetween(gap, d);
  }

  lemma NoMultipleBetween(k: int, d: int)
    requires d >= 0
    ensures k == 0 || k * d >= d || k * d <= -d
  {
    if k > 0 {
      MultipleAtLeast(k, d);
    } else if k < 0 {
      MultipleAtLeast(-k, d);
      assert k * d == -((-k) * d);
    }
  }

  lemma MultipleAtLeast(k: nat, d: nat)
    requires k > 0
    ensures k * d >= d
  {
  }
}
