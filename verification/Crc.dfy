// The CRC-32 of zip entries: a table-driven loop, the bit-at-a-time division it stands for, and what it catches.

module Crc {
  import opened Basics

  const POLYNOMIAL: bv32 := 0xEDB8_8320

  function Xor(x: bv32, y: bv32): bv32 {
    x ^ y
  }

  function Half(x: bv32): bv32 {
    x >> 1
  }

  /** One bit of reflected polynomial division. */
  function Step(value: bv32): bv32 {
    if value & 1 == 1 then (value >> 1) ^ POLYNOMIAL else value >> 1
  }

  function Steps(value: bv32, n: nat): bv32
    decreases n
  {
    if n == 0 then value else Steps(Step(value), n - 1)
  }

  /** The number the low `n` bits of a word stand for. */
  function Number(x: bv32, n: nat): nat
    decreases n
  {
    if n == 0 then 0 else (if x & 1 == 1 then 1 else 0) + 2 * Number(Half(x), n - 1)
  }

  /** The word whose low `n` bits are the number's. */
  function WordOf(v: nat, n: nat): bv32
    decreases n
  {
    if n == 0 then 0 else Doubled(WordOf(v / 2, n - 1), v % 2 == 1)
  }

  function Doubled(x: bv32, odd: bool): bv32 {
    (x << 1) | (if odd then 1 else 0)
  }

  function Word(b: byte): bv32 {
    WordOf(b, 8)
  }

  /** Division of `n` message bits, the lowest first, carried on from `state`. */
  ghost function DivideBits(state: bv32, message: bv32, n: nat): bv32
    decreases n
  {
    if n == 0 then state else DivideBits(Step(Xor(state, Low(message))), Half(message), n - 1)
  }

  ghost function DivideByte(state: bv32, b: byte): bv32 {
    DivideBits(state, Word(b), 8)
  }

  /** The division carried through a byte string, eight bits a byte. */
  ghost function Divide(state: bv32, bytes: seq<byte>): bv32 {
    if bytes == [] then state else DivideByte(Divide(state, bytes[..|bytes| - 1]), bytes[|bytes| - 1])
  }

  /** IEEE 802.3: start from all ones and complement the remainder. */
  ghost function CrcSpec(bytes: seq<byte>): nat {
    Complement(Divide(0xFFFF_FFFF, bytes))
  }

  function Complement(x: bv32): nat {
    Number(!x, 32)
  }

  // ----- single steps -----

  lemma OddStep(x: bv32, y: bv32)
    requires y & 1 == 0 && x & 1 == 1
    ensures (x ^ y) & 1 == 1 && (x ^ y) >> 1 == (x >> 1) ^ (y >> 1)
    ensures ((x >> 1) ^ (y >> 1)) ^ POLYNOMIAL == ((x >> 1) ^ POLYNOMIAL) ^ (y >> 1)
  {
  }

  lemma EvenStep(x: bv32, y: bv32)
    requires y & 1 == 0 && x & 1 != 1
    ensures (x ^ y) & 1 != 1 && (x ^ y) >> 1 == (x >> 1) ^ (y >> 1)
  {
  }

  /** A value whose lowest bit is clear passes through a step as a plain shift. */
  lemma StepShifts(x: bv32, y: bv32)
    requires y & 1 == 0
    ensures Step(Xor(x, y)) == Xor(Step(x), Half(y))
  {
    hide Step;
    BitsShift(x, y);
  }

  lemma BitsShift(x: bv32, y: bv32)
    requires y & 1 == 0
    ensures Step(x ^ y) == Step(x) ^ (y >> 1)
  {
    if x & 1 == 1 {
      OddStep(x, y);
    } else {
      EvenStep(x, y);
    }
  }

  lemma StepInjective(x: bv32, y: bv32)
    requires Step(x) == Step(y)
    ensures x == y
  {
  }

  lemma {:induction false} StepsInjective(x: bv32, y: bv32, n: nat)
    requires Steps(x, n) == Steps(y, n)
    ensures x == y
    decreases n
  {
    if n > 0 {
      StepsInjective(Step(x), Step(y), n - 1);
      StepInjective(x, y);
    }
  }

  lemma {:induction false} StepsAdd(x: bv32, m: nat, n: nat)
    ensures Steps(Steps(x, m), n) == Steps(x, m + n)
    decreases m
  {
    if m > 0 {
      StepsAdd(Step(x), m - 1, n);
    }
  }

  ghost function Shifted(y: bv32, n: nat): bv32
    decreases n
  {
    if n == 0 then y else Shifted(Half(y), n - 1)
  }

  ghost predicate LowClear(y: bv32, n: nat)
    decreases n
  {
    n == 0 || (y & 1 == 0 && LowClear(Half(y), n - 1))
  }

  /** Bits the division has not reached yet ride along unchanged. */
  lemma {:induction false} StepsShift(x: bv32, y: bv32, n: nat)
    requires LowClear(y, n)
    ensures Steps(Xor(x, y), n) == Xor(Steps(x, n), Shifted(y, n))
    decreases n
  {
    hide Xor, Half, Step;
    if n > 0 {
      StepShifts(x, y);
      StepsShift(Step(x), Half(y), n - 1);
    }
  }

  function Low(m: bv32): bv32 {
    m & 1
  }

  function High(m: bv32): bv32 {
    m & 0xFFFF_FFFE
  }

  lemma SplitLow(m: bv32)
    ensures m == Xor(Low(m), High(m))
    ensures High(m) & 1 == 0 && Half(High(m)) == Half(m)
  {
  }

  lemma XorJoins(x: bv32, y: bv32, z: bv32)
    ensures Xor(x, Xor(y, z)) == Xor(Xor(x, y), z)
  {
  }

  /** Feeding the bits one at a time is stepping the mixed word. */
  lemma {:induction false} DivideIsSteps(state: bv32, message: bv32, n: nat)
    ensures Steps(Xor(state, message), n) == Xor(DivideBits(state, message, n), Shifted(message, n))
    decreases n
  {
    hide Xor, Half, Step, Low, High;
    if n > 0 {
      var low, high := Low(message), High(message);
      SplitLow(message);
      XorJoins(state, low, high);
      StepShifts(Xor(state, low), high);
      DivideIsSteps(Step(Xor(state, low)), Half(message), n - 1);
    }
  }

  lemma ByteShiftsOut(w: bv32)
    requires w <= 0xFF
    ensures Shifted(w, 8) == 0
  {
  }

  lemma XorNothing(x: bv32)
    ensures Xor(x, 0) == x
  {
  }

  // ----- words and numbers -----

  lemma CrcIs32Bits(bytes: seq<byte>)
    ensures CrcSpec(bytes) < 0x1_0000_0000
  {
    hide Divide, Number, Pow2;
    NumberFits(!Divide(0xFFFF_FFFF, bytes), 32);
    Pow2Of32();
  }

  lemma Pow2Of32()
    ensures Pow2(32) == 0x1_0000_0000
  {
    hide Pow2;
    Pow2Of16();
    Pow2Adds(16, 16);
  }

  lemma Pow2Of16()
    ensures Pow2(16) == 0x1_0000
  {
    Pow2Adds(8, 8);
    assert Pow2(8) == 0x100;
  }

  function Mask(n: nat): bv32
    decreases n
  {
    if n == 0 then 0 else Doubled(Mask(n - 1), true)
  }

  predicate Fits(x: bv32, mask: bv32) {
    x <= mask
  }

  lemma DoubledFits(x: bv32, mask: bv32, odd: bool)
    requires Fits(x, mask) && Fits(mask, 0x7FFF_FFFF)
    ensures Fits(Doubled(x, odd), Doubled(mask, true))
    ensures Half(Doubled(x, odd)) == x && (Doubled(x, odd) & 1 == 1 <==> odd)
  {
  }

  const MASKS: seq<bv32> := [0, 0x1, 0x3, 0x7, 0xF, 0x1F, 0x3F, 0x7F, 0xFF]

  lemma {:induction false} MaskOfByte(n: nat)
    requires n <= 8
    ensures Mask(n) == MASKS[n] <= 0xFF
  {
    if n > 0 {
      MaskOfByte(n - 1);
    }
  }

  lemma MaskTurn(n: nat)
    requires n > 0
    ensures Mask(n) == Doubled(Mask(n - 1), true)
  {
    hide Doubled;
  }

  lemma MaskIsSmall(n: nat)
    requires n <= 8
    ensures Fits(Mask(n), 0x7FFF_FFFF)
  {
    hide Mask;
    MaskOfByte(n);
  }

  lemma WordTurn(v: nat, n: nat)
    requires n > 0
    ensures WordOf(v, n) == Doubled(WordOf(v / 2, n - 1), v % 2 == 1)
  {
    hide Doubled;
  }

  lemma NoWordFits(v: nat)
    ensures Fits(WordOf(v, 0), Mask(0))
  {
  }

  lemma {:induction false} WordFits(v: nat, n: nat)
    requires n <= 8
    ensures Fits(WordOf(v, n), Mask(n))
    decreases n
  {
    hide Doubled, Fits, Mask, WordOf;
    if n == 0 {
      NoWordFits(v);
    } else {
      WordFits(v / 2, n - 1);
      MaskIsSmall(n - 1);
      MaskTurn(n);
      WordTurn(v, n);
      DoubledFits(WordOf(v / 2, n - 1), Mask(n - 1), v % 2 == 1);
    }
  }

  lemma {:induction false} NumberOfWord(v: nat, n: nat)
    requires n <= 8 && v < Pow2(n)
    ensures Number(WordOf(v, n), n) == v
    decreases n
  {
    hide Doubled, Fits, Half, Mask, WordOf;
    if n > 0 {
      NumberOfWord(v / 2, n - 1);
      WordFits(v / 2, n - 1);
      MaskIsSmall(n - 1);
      WordTurn(v, n);
      DoubledFits(WordOf(v / 2, n - 1), Mask(n - 1), v % 2 == 1);
    }
  }

  lemma {:induction false} NumberFits(x: bv32, n: nat)
    ensures Number(x, n) < Pow2(n)
    decreases n
  {
    if n > 0 {
      NumberFits(Half(x), n - 1);
    }
  }

  lemma HalvesTell(x: bv32, y: bv32)
    requires Half(x) == Half(y) && (x & 1 == 1 <==> y & 1 == 1)
    ensures x == y
  {
  }

  lemma {:induction false} NumbersTell(x: bv32, y: bv32, n: nat)
    requires Number(x, n) == Number(y, n) && Shifted(x, n) == Shifted(y, n)
    ensures x == y
    decreases n
  {
    hide Half;
    if n > 0 {
      NumbersTell(Half(x), Half(y), n - 1);
      HalvesTell(x, y);
    }
  }

  lemma WordIsByte(b: byte)
    ensures Word(b) <= 0xFF
  {
    hide Mask, WordOf;
    WordFits(b, 8);
    MaskOfByte(8);
  }

  lemma ByteKept(b: byte)
    ensures Number(Word(b), 8) == b
  {
    hide WordOf, Number;
    NumberOfWord(b, 8);
  }

  /** A byte at a time: mix the byte in, then step eight times. */
  lemma DivideByteIsSteps(state: bv32, b: byte)
    ensures DivideByte(state, b) == Steps(Xor(state, Word(b)), 8)
  {
    hide Steps, DivideBits, Shifted, Word, Xor;
    DivideIsSteps(state, Word(b), 8);
    WordIsByte(b);
    ByteShiftsOut(Word(b));
    XorNothing(DivideByte(state, b));
  }

  // ----- the table -----

  function LowByte(m: bv32): bv32 {
    m & 0xFF
  }

  function HighBytes(m: bv32): bv32 {
    m & 0xFFFF_FF00
  }

  lemma SplitByte(m: bv32)
    ensures m == Xor(LowByte(m), HighBytes(m))
  {
  }

  lemma HighClear(m: bv32)
    ensures LowClear(HighBytes(m), 8)
  {
  }

  lemma HighShifts(state: bv32, w: bv32)
    requires w <= 0xFF
    ensures Shifted(HighBytes(Xor(state, w)), 8) == state >> 8
  {
  }

  lemma XorCommutes(x: bv32, y: bv32)
    ensures Xor(x, y) == Xor(y, x)
  {
  }

  /** The table index: the low byte of the mixed state. */
  function Slot(state: bv32, b: byte): (slot: byte)
  {
    NumberFits(LowByte(Xor(state, Word(b))), 8);
    Number(LowByte(Xor(state, Word(b))), 8)
  }

  lemma LowByteFits(m: bv32)
    ensures LowByte(m) <= 0xFF
  {
  }

  lemma SlotIsLowByte(state: bv32, b: byte)
    ensures Word(Slot(state, b)) == LowByte(Xor(state, Word(b)))
  {
    hide Xor, WordOf, Number, Shifted, LowByte, Word;
    var low, slot := LowByte(Xor(state, Word(b))), Slot(state, b);
    LowByteFits(Xor(state, Word(b)));
    ByteShiftsOut(low);
    WordIsByte(slot);
    ByteShiftsOut(Word(slot));
    ByteKept(slot);
    NumbersTell(low, Word(slot), 8);
  }

  /** One lookup does the work of eight bits. */
  lemma TableTurn(state: bv32, b: byte)
    ensures Xor(state >> 8, Steps(Word(Slot(state, b)), 8)) == DivideByte(state, b)
  {
    hide Steps, Shifted, LowClear, Word, DivideByte, Xor, LowByte, HighBytes, Slot;
    var mixed := Xor(state, Word(b));
    DivideByteIsSteps(state, b);
    SplitByte(mixed);
    HighClear(mixed);
    StepsShift(LowByte(mixed), HighBytes(mixed), 8);
    WordIsByte(b);
    HighShifts(state, Word(b));
    SlotIsLowByte(state, b);
    XorCommutes(state >> 8, Steps(LowByte(mixed), 8));
  }

  method CrcTable() returns (table: array<bv32>)
    ensures fresh(table) && table.Length == 256
    ensures forall slot: int :: 0 <= slot < 256 ==> table[slot] == Steps(Word(slot), 8)
  {
    hide Word;
    table := new bv32[256](_ => 0);
    for slot := 0 to 256
      invariant forall j: int :: 0 <= j < slot ==> table[j] == Steps(Word(j), 8)
    {
      var value := TableEntry(Word(slot), 8);
      table[slot] := value;
    }
  }

  method TableEntry(start: bv32, n: nat) returns (value: bv32)
    ensures value == Steps(start, n)
  {
    hide Step;
    value := start;
    for i := 0 to n
      invariant Steps(start, n) == Steps(value, n - i)
    {
      value := Step(value);
    }
  }

  method Crc32(bytes: seq<byte>) returns (crc: nat)
    ensures crc == CrcSpec(bytes)
  {
    hide Steps, Word, DivideByte, Slot, Xor;
    var table := CrcTable();
    var state: bv32 := 0xFFFF_FFFF;
    for i := 0 to |bytes|
      invariant forall slot: int :: 0 <= slot < 256 ==> table[slot] == Steps(Word(slot), 8)
      invariant state == Divide(0xFFFF_FFFF, bytes[..i])
    {
      assert bytes[..i + 1][..i] == bytes[..i];
      TableTurn(state, bytes[i]);
      var entry := table[Slot(state, bytes[i])];
      assert entry == Steps(Word(Slot(state, bytes[i])), 8);
      state := Xor(state >> 8, entry);
    }
    assert bytes[..|bytes|] == bytes;
    crc := Complement(state);
  }

  // ----- what a change does to the checksum -----

  lemma XorCancels(x: bv32, y: bv32, z: bv32)
    requires Xor(x, y) == Xor(x, z)
    ensures y == z
  {
    assert x ^ (x ^ y) == y && x ^ (x ^ z) == z;
  }

  /** Four message bytes as the word the division mixes in. */
  function Four(a: bv32, b: bv32, c: bv32, d: bv32): bv32 {
    Xor(Xor(Xor(a, b << 8), c << 16), d << 24)
  }

  lemma FourInjective(a: bv32, b: bv32, c: bv32, d: bv32, a': bv32, b': bv32, c': bv32, d': bv32)
    requires a <= 0xFF && b <= 0xFF && c <= 0xFF && d <= 0xFF
    requires a' <= 0xFF && b' <= 0xFF && c' <= 0xFF && d' <= 0xFF
    requires Four(a, b, c, d) == Four(a', b', c', d')
    ensures a == a' && b == b' && c == c' && d == d'
  {
    FourFields(a, b, c, d);
    FourFields(a', b', c', d');
  }

  lemma FourFields(a: bv32, b: bv32, c: bv32, d: bv32)
    requires a <= 0xFF && b <= 0xFF && c <= 0xFF && d <= 0xFF
    ensures Four(a, b, c, d) & 0xFF == a
    ensures (Four(a, b, c, d) >> 8) & 0xFF == b
    ensures (Four(a, b, c, d) >> 16) & 0xFF == c
    ensures (Four(a, b, c, d) >> 24) & 0xFF == d
  {
  }

  lemma ShiftedBack8(w: bv32)
    requires w <= 0xFF_FFFF
    ensures LowClear(w << 8, 8) && Shifted(w << 8, 8) == w
  {
  }

  lemma ShiftedTwice(y: bv32, m: nat, n: nat)
    ensures Shifted(y, m + n) == Shifted(Shifted(y, m), n)
    ensures LowClear(y, m) && LowClear(Shifted(y, m), n) ==> LowClear(y, m + n)
    decreases m
  {
    if m > 0 {
      ShiftedTwice(Half(y), m - 1, n);
    }
  }

  lemma ShiftedBack16(w: bv32)
    requires w <= 0xFFFF
    ensures LowClear(w << 16, 16) && Shifted(w << 16, 16) == w
  {
    hide LowClear, Shifted;
    assert w << 16 == (w << 8) << 8;
    ShiftedBack8(w << 8);
    ShiftedBack8(w);
    ShiftedTwice(w << 16, 8, 8);
  }

  lemma ShiftedBack24(w: bv32)
    requires w <= 0xFF
    ensures LowClear(w << 24, 24) && Shifted(w << 24, 24) == w
  {
    hide LowClear, Shifted;
    assert w << 24 == (w << 16) << 8;
    ShiftedBack8(w << 16);
    ShiftedBack16(w);
    ShiftedTwice(w << 24, 8, 16);
  }

  /** One more message byte joins the word that has been stepped `n` times so far. */
  lemma ByteJoins(mixed: bv32, n: nat, b: byte, lifted: bv32)
    requires LowClear(lifted, n) && Shifted(lifted, n) == Word(b)
    ensures DivideByte(Steps(mixed, n), b) == Steps(Xor(mixed, lifted), n + 8)
  {
    hide Steps, Shifted, LowClear, Word, DivideByte, Xor;
    DivideByteIsSteps(Steps(mixed, n), b);
    StepsShift(mixed, lifted, n);
    StepsAdd(Xor(mixed, lifted), n, 8);
  }

  ghost function DivideFour(state: bv32, a: byte, b: byte, c: byte, d: byte): bv32 {
    DivideByte(DivideByte(DivideByte(DivideByte(state, a), b), c), d)
  }

  /** Four bytes are divided as one 32-bit word. */
  lemma FourBytesAreAWord(state: bv32, a: byte, b: byte, c: byte, d: byte)
    ensures DivideFour(state, a, b, c, d) == Steps(Xor(state, Four(Word(a), Word(b), Word(c), Word(d))), 32)
  {
    hide Steps, Shifted, LowClear, Word, DivideByte, Xor;
    WordIsByte(b);
    WordIsByte(c);
    WordIsByte(d);
    var w := Xor(state, Word(a));
    DivideByteIsSteps(state, a);
    ShiftedBack8(Word(b));
    ByteJoins(w, 8, b, Word(b) << 8);
    var x := Xor(w, Word(b) << 8);
    ShiftedBack16(Word(c));
    ByteJoins(x, 16, c, Word(c) << 16);
    var y := Xor(x, Word(c) << 16);
    ShiftedBack24(Word(d));
    ByteJoins(y, 24, d, Word(d) << 24);
    XorJoins(state, Word(a), Word(b) << 8);
    XorJoins(state, Xor(Word(a), Word(b) << 8), Word(c) << 16);
    XorJoins(state, Xor(Xor(Word(a), Word(b) << 8), Word(c) << 16), Word(d) << 24);
  }

  lemma WordInjective(a: byte, b: byte)
    requires Word(a) == Word(b)
    ensures a == b
  {
    ByteKept(a);
    ByteKept(b);
  }

  /** From one state, two different runs of four bytes never lead to the same state. */
  lemma FourBytesTell(state: bv32, a: byte, b: byte, c: byte, d: byte, a': byte, b': byte, c': byte, d': byte)
    requires DivideFour(state, a, b, c, d) == DivideFour(state, a', b', c', d')
    ensures a == a' && b == b' && c == c' && d == d'
  {
    hide Steps, Word, DivideFour, Xor, Four;
    FourBytesAreAWord(state, a, b, c, d);
    FourBytesAreAWord(state, a', b', c', d');
    var w, w' := Four(Word(a), Word(b), Word(c), Word(d)), Four(Word(a'), Word(b'), Word(c'), Word(d'));
    StepsInjective(Xor(state, w), Xor(state, w'), 32);
    XorCancels(state, w, w');
    WordsFit(a, b, c, d);
    WordsFit(a', b', c', d');
    FourInjective(Word(a), Word(b), Word(c), Word(d), Word(a'), Word(b'), Word(c'), Word(d'));
    WordInjective(a, a');
    WordInjective(b, b');
    WordInjective(c, c');
    WordInjective(d, d');
  }

  lemma WordsFit(a: byte, b: byte, c: byte, d: byte)
    ensures Word(a) <= 0xFF && Word(b) <= 0xFF && Word(c) <= 0xFF && Word(d) <= 0xFF
  {
    WordIsByte(a);
    WordIsByte(b);
    WordIsByte(c);
    WordIsByte(d);
  }

  lemma {:induction false} DivideContinues(state: bv32, a: seq<byte>, b: seq<byte>)
    ensures Divide(state, a + b) == Divide(Divide(state, a), b)
  {
    hide DivideByte;
    if b == [] {
      assert a + b == a;
    } else {
      var init := b[..|b| - 1];
      DivideContinues(state, a, init);
      assert (a + b)[..|a + b| - 1] == a + init;
    }
  }

  /** A byte string only ever carries different states to different states. */
  lemma {:induction false} DivideInjective(s: bv32, t: bv32, bytes: seq<byte>)
    requires Divide(s, bytes) == Divide(t, bytes)
    ensures s == t
  {
    hide DivideByte, Steps, Xor, Word;
    if bytes != [] {
      var init, last := bytes[..|bytes| - 1], bytes[|bytes| - 1];
      var x, y := Divide(s, init), Divide(t, init);
      DivideByteIsSteps(x, last);
      DivideByteIsSteps(y, last);
      StepsInjective(Xor(x, Word(last)), Xor(y, Word(last)), 8);
      XorCommutes(x, Word(last));
      XorCommutes(y, Word(last));
      XorCancels(Word(last), x, y);
      DivideInjective(s, t, init);
    }
  }

  lemma DivideOfFour(state: bv32, w: seq<byte>)
    requires |w| == 4
    ensures Divide(state, w) == DivideFour(state, w[0], w[1], w[2], w[3])
  {
    hide DivideByte;
    assert w[..3][..2] == w[..2] && w[..2][..1] == w[..1] && w[..1][..0] == [];
    assert Divide(state, w[..1]) == DivideByte(Divide(state, []), w[0]);
    assert Divide(state, w[..2]) == DivideByte(Divide(state, w[..1]), w[1]);
    assert Divide(state, w[..3]) == DivideByte(Divide(state, w[..2]), w[2]);
  }

  lemma SameStateSameRun(state: bv32, x: seq<byte>, y: seq<byte>)
    requires |x| == |y| <= 4
    requires Divide(state, x) == Divide(state, y)
    ensures x == y
  {
    hide DivideFour, DivideByte, Divide;
    var pad: seq<byte> := seq(4 - |x|, _ => 0);
    var v, w := x + pad, y + pad;
    DivideContinues(state, x, pad);
    DivideContinues(state, y, pad);
    DivideOfFour(state, v);
    DivideOfFour(state, w);
    FourBytesTell(state, v[0], v[1], v[2], v[3], w[0], w[1], w[2], w[3]);
    assert x == v[..|x|] && y == w[..|x|];
  }

  /** Changing a run of at most four bytes, in data of any length, always changes the checksum. */
  lemma ShortChangeShows(before: seq<byte>, x: seq<byte>, y: seq<byte>, after: seq<byte>)
    requires |x| == |y| <= 4
    ensures CrcSpec(before + x + after) == CrcSpec(before + y + after) <==> x == y
  {
    hide DivideByte, Divide, Complement;
    var init: bv32 := 0xFFFF_FFFF;
    if CrcSpec(before + x + after) == CrcSpec(before + y + after) {
      ComplementInjective(Divide(init, before + x + after), Divide(init, before + y + after));
      DivideContinues(init, before + x, after);
      DivideContinues(init, before + y, after);
      DivideContinues(init, before, x);
      DivideContinues(init, before, y);
      DivideInjective(Divide(Divide(init, before), x), Divide(Divide(init, before), y), after);
      SameStateSameRun(Divide(init, before), x, y);
    }
  }

  lemma AllShiftsOut(x: bv32)
    ensures Shifted(x, 32) == 0
  {
    hide Shifted;
    ShiftedTwice(x, 8, 24);
    ShiftedTwice(x >> 8, 8, 16);
    ShiftedTwice(x >> 16, 8, 8);
    ShiftedByte(x);
    ShiftedByte(x >> 8);
    ShiftedByte(x >> 16);
    ShiftedByte(x >> 24);
    assert (x >> 8) >> 8 == x >> 16 && (x >> 16) >> 8 == x >> 24 && (x >> 24) >> 8 == 0;
  }

  lemma ShiftedByte(x: bv32)
    ensures Shifted(x, 8) == x >> 8
  {
  }

  lemma NotInjective(x: bv32, y: bv32)
    requires !x == !y
    ensures x == y
  {
  }

  lemma ComplementInjective(x: bv32, y: bv32)
    requires Complement(x) == Complement(y)
    ensures x == y
  {
    hide Shifted, Number;
    AllShiftsOut(!x);
    AllShiftsOut(!y);
    NumbersTell(!x, !y, 32);
    NotInjective(x, y);
  }
}
