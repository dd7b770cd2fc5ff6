/** The 32-bit string hash of hash.cpp: its mixing step, its loop over blocks of twelve bytes,
    and what of a key it keeps apart. */
module JenkinsHash {

  import opened Words
  import opened Wrappers

  /** A C string: bytes without the terminator. */
  type Key = k: Bytes | forall i :: 0 <= i < |k| ==> k[i] != 0

  /** The internal state of the hash. */
  datatype State = State(a: word, b: word, c: word)

  const GOLDEN: word := 0x9e3779b9

  /** x -= y; x -= z; x ^= w */
  function Take(x: word, y: word, z: word, w: word): word { Xor(Difference(Difference(x, y), z), w) }

  function Give(x: word, y: word, z: word, w: word): word { Sum(Sum(Xor(x, w), z), y) }

  lemma GiveTake(x: word, y: word, z: word, w: word)
    ensures Give(Take(x, y, z, w), y, z, w) == x && Take(Give(x, y, z, w), y, z, w) == x
  {
    hide Sum, Difference, Xor;
    XorTwice(Difference(Difference(x, y), z), w);
    XorTwice(x, w);
    SumDifference(x, y);
    SumDifference(Difference(x, y), z);
    SumDifference(Xor(x, w), z);
    SumDifference(Sum(Xor(x, w), z), y);
  }

  /** A line of mix: the variable it changes and its shift distance. */
  datatype Line = A(k: nat) | B(k: nat) | C(k: nat)

  const LINES := [A(13), B(8), C(13), A(12), B(16), C(5), A(3), B(10), C(15)]

  function Step(s: State, l: Line): State {
    match l
    case A(k) => s.(a := Take(s.a, s.b, s.c, ShiftRight(s.c, k)))
    case B(k) => s.(b := Take(s.b, s.c, s.a, ShiftLeft(s.a, k)))
    case C(k) => s.(c := Take(s.c, s.a, s.b, ShiftRight(s.b, k)))
  }

  function Back(s: State, l: Line): State {
    match l
    case A(k) => s.(a := Give(s.a, s.b, s.c, ShiftRight(s.c, k)))
    case B(k) => s.(b := Give(s.b, s.c, s.a, ShiftLeft(s.a, k)))
    case C(k) => s.(c := Give(s.c, s.a, s.b, ShiftRight(s.b, k)))
  }

  lemma StepUndone(s: State, l: Line)
    ensures Back(Step(s, l), l) == s && Step(Back(s, l), l) == s
  {
    hide Give, Take, ShiftLeft, ShiftRight;
    match l
    case A(k) => GiveTake(s.a, s.b, s.c, ShiftRight(s.c, k));
    case B(k) => GiveTake(s.b, s.c, s.a, ShiftLeft(s.a, k));
    case C(k) => GiveTake(s.c, s.a, s.b, ShiftRight(s.b, k));
  }

  function Steps(s: State, ls: seq<Line>): State
    decreases |ls|
  {
    if ls == [] then s else Steps(Step(s, ls[0]), ls[1..])
  }

  function Backs(s: State, ls: seq<Line>): State
    decreases |ls|
  {
    if ls == [] then s else Back(Backs(s, ls[1..]), ls[0])
  }

  lemma {:induction false} StepsUndone(s: State, ls: seq<Line>)
    ensures Backs(Steps(s, ls), ls) == s && Steps(Backs(s, ls), ls) == s
    decreases |ls|
  {
    hide Step, Back;
    if ls != [] {
      StepsUndone(Step(s, ls[0]), ls[1..]);
      StepUndone(s, ls[0]);
      StepsUndone(s, ls[1..]);
      StepUndone(Backs(s, ls[1..]), ls[0]);
    }
  }

  /** The macro mix. */
  function Mix(s: State): (r: State) { Steps(s, LINES) }

  function Unmix(s: State): (r: State) { Backs(s, LINES) }

  /** mix is a bijection on triples of 32-bit words. */
  lemma MixIsBijection(s: State)
    ensures Unmix(Mix(s)) == s && Mix(Unmix(s)) == s
  {
    StepsUndone(s, LINES);
  }

  /** Twelve bytes added to the state as three words. */
  function Absorb(s: State, b: Bytes): State
    requires |b| == 12
  {
    State(Sum(s.a, Word32(b[0..4])), Sum(s.b, Word32(b[4..8])), Sum(s.c, Word32(b[8..12])))
  }

  /** The last bytes of a key in the places where the hash adds them: the low byte of the
      third word is their number. */
  function TailBlock(t: Bytes): (b: Bytes)
    requires |t| < 12
    ensures |b| == 12
  {
    var p := t + Fill(11 - |t|, 0);
    p[0..8] + [|t|] + p[8..11]
  }

  function AfterBlocks(k: Bytes, s: State): State
    decreases |k|
  {
    if |k| < 12 then s else AfterBlocks(k[12..], Mix(Absorb(s, k[..12])))
  }

  /** The bytes of k after its last full block. */
  function Tail(k: Bytes): (t: Bytes)
    ensures |t| < 12
  {
    k[|k| - |k| % 12..]
  }

  /** a, b and c at the end of hash. */
  function FinalState(k: Bytes, initval: word): State {
    Mix(Absorb(AfterBlocks(k, State(GOLDEN, GOLDEN, initval)), TailBlock(Tail(k))))
  }

  function Hash(k: Bytes, initval: word): (h: word) { FinalState(k, initval).c }

  lemma SumCancels(x: word, y: word, v: word)
    requires Sum(x, v) == Sum(y, v) || Sum(v, x) == Sum(v, y)
    ensures x == y
  {
  }

  lemma AbsorbInjective(s: State, b: Bytes, s': State, b': Bytes)
    requires |b| == |b'| == 12 && Absorb(s, b) == Absorb(s', b')
    ensures s == s' ==> b == b'
    ensures b == b' ==> s == s'
  {
    hide Sum, Word32;
    if s == s' {
      SumCancels(Word32(b[0..4]), Word32(b'[0..4]), s.a);
      SumCancels(Word32(b[4..8]), Word32(b'[4..8]), s.b);
      SumCancels(Word32(b[8..12]), Word32(b'[8..12]), s.c);
      Bytes32OfWord32(b[0..4]); Bytes32OfWord32(b'[0..4]);
      Bytes32OfWord32(b[4..8]); Bytes32OfWord32(b'[4..8]);
      Bytes32OfWord32(b[8..12]); Bytes32OfWord32(b'[8..12]);
      assert b == b[0..4] + b[4..8] + b[8..12];
      assert b' == b'[0..4] + b'[4..8] + b'[8..12];
    }
    if b == b' {
      SumCancels(s.a, s'.a, Word32(b[0..4]));
      SumCancels(s.b, s'.b, Word32(b[4..8]));
      SumCancels(s.c, s'.c, Word32(b[8..12]));
    }
  }

  lemma MixInjective(s: State, s': State)
    requires Mix(s) == Mix(s')
    ensures s == s'
  {
    hide Mix, Unmix;
    MixIsBijection(s);
    MixIsBijection(s');
  }

  lemma TailBlockBack(t: Bytes)
    requires |t| < 12
    ensures var b := TailBlock(t); b[8] <= 11 && t == (b[0..8] + b[9..12])[..b[8]]
  {
    var b, p := TailBlock(t), t + Fill(11 - |t|, 0);
    assert b[8] == |t| && b[0..8] == p[0..8] && b[9..12] == p[8..11];
    assert p == p[0..8] + p[8..11];
    assert t == p[..|t|];
  }

  lemma TailBlockInjective(t: Bytes, t': Bytes)
    requires |t| < 12 && |t'| < 12 && TailBlock(t) == TailBlock(t')
    ensures t == t'
  {
    TailBlockBack(t);
    TailBlockBack(t');
  }

  /** Equal blocks lead equal states to equal states only from equal states. */
  lemma {:induction false} AfterBlocksInjective(k: Bytes, s: State, s': State)
    requires AfterBlocks(k, s) == AfterBlocks(k, s')
    ensures s == s'
    decreases |k|
  {
    hide Mix, Absorb;
    if |k| >= 12 {
      var b := k[..12];
      AfterBlocksInjective(k[12..], Mix(Absorb(s, b)), Mix(Absorb(s', b)));
      MixInjective(Absorb(s, b), Absorb(s', b));
      AbsorbInjective(s, b, s', b);
    }
  }

  lemma LastBytes(p: Bytes, r: Bytes)
    requires |p| % 12 == 0
    ensures Tail(p + r) == Tail(r)
  {
    assert |p| == 12 * (|p| / 12);
    assert |p + r| % 12 == |r| % 12;
    assert (p + r)[|p + r| - |r| % 12..] == r[|r| - |r| % 12..];
  }

  lemma {:induction false} BlocksThenRest(p: Bytes, r: Bytes, s: State)
    requires |p| % 12 == 0
    ensures AfterBlocks(p + r, s) == AfterBlocks(r, AfterBlocks(p, s))
    ensures Tail(p + r) == Tail(r)
    decreases |p|
  {
    hide Mix, Absorb;
    if p == [] {
      assert p + r == r;
    } else {
      var s1 := Mix(Absorb(s, p[..12]));
      BlocksThenRest(p[12..], r, s1);
      assert (p + r)[..12] == p[..12] && (p + r)[12..] == p[12..] + r;
      LastBytes(p, r);
    }
  }

  /** Keys that agree up to their last block boundary and then differ, in bytes or in length,
      end in different triples; all keys of at most eleven bytes are such keys. */
  lemma TailsKeptApart(p: Bytes, t: Bytes, t': Bytes, initval: word)
    requires |p| % 12 == 0 && |t| < 12 && |t'| < 12 && t != t'
    ensures FinalState(p + t, initval) != FinalState(p + t', initval)
  {
    hide Mix, Absorb, TailBlock;
    if FinalState(p + t, initval) == FinalState(p + t', initval) {
      var s := AfterBlocks(p, State(GOLDEN, GOLDEN, initval));
      BlocksThenRest(p, t, State(GOLDEN, GOLDEN, initval));
      BlocksThenRest(p, t', State(GOLDEN, GOLDEN, initval));
      MixInjective(Absorb(s, TailBlock(t)), Absorb(s, TailBlock(t')));
      AbsorbInjective(s, TailBlock(t), s, TailBlock(t'));
      TailBlockInjective(t, t');
    }
  }

  lemma BlocksThenOne(p: Bytes, b: Bytes, r: Bytes, s: State)
    requires |p| % 12 == 0 && |b| == 12
    ensures AfterBlocks(p + b + r, s) == AfterBlocks(r, Mix(Absorb(AfterBlocks(p, s), b)))
    ensures Tail(p + b + r) == Tail(r)
  {
    hide Mix, Absorb;
    assert p + b + r == p + (b + r);
    BlocksThenRest(p, b + r, s);
    BlocksThenRest(b, r, AfterBlocks(p, s));
    assert b[..12] == b && b[12..] == [];
  }

  /** Keys that differ in exactly one full block end in different triples. */
  lemma BlocksKeptApart(p: Bytes, b: Bytes, b': Bytes, r: Bytes, initval: word)
    requires |p| % 12 == 0 && |b| == |b'| == 12 && b != b'
    ensures FinalState(p + b + r, initval) != FinalState(p + b' + r, initval)
  {
    hide Mix, Absorb, TailBlock, Tail;
    if FinalState(p + b + r, initval) == FinalState(p + b' + r, initval) {
      var s := AfterBlocks(p, State(GOLDEN, GOLDEN, initval));
      BlocksThenOne(p, b, r, State(GOLDEN, GOLDEN, initval));
      BlocksThenOne(p, b', r, State(GOLDEN, GOLDEN, initval));
      var u, u' := Mix(Absorb(s, b)), Mix(Absorb(s, b'));
      var t := TailBlock(Tail(r));
      MixInjective(Absorb(AfterBlocks(r, u), t), Absorb(AfterBlocks(r, u'), t));
      AbsorbInjective(AfterBlocks(r, u), t, AfterBlocks(r, u'), t);
      AfterBlocksInjective(r, u, u');
      MixInjective(Absorb(s, b), Absorb(s, b'));
      AbsorbInjective(s, b, s, b');
    }
  }

  function Times(x: int, d: int): (r: word)
    requires 0 <= x < 256 && 0 <= d <= 16777216
  {
    x * d
  }

  /** What byte i of the tail adds to its word, if the tail has one. */
  function Part(t: Bytes, i: nat, d: int): (r: word)
    requires 0 <= d <= 16777216
  {
    if i < |t| then Times(t[i], d) else 0
  }

  lemma PlainByte(t: Bytes, i: nat)
    ensures i < |t| ==> Times(t[i], 1) == t[i]
  {
  }

  /** Byte i of the tail, or zero behind its end. */
  function ByteOr0(t: Bytes, i: nat): byte { if i < |t| then t[i] else 0 }

  lemma TailBytes(t: Bytes)
    requires |t| < 12
    ensures var b := TailBlock(t);
            && b[0..4] == [ByteOr0(t, 0), ByteOr0(t, 1), ByteOr0(t, 2), ByteOr0(t, 3)]
            && b[4..8] == [ByteOr0(t, 4), ByteOr0(t, 5), ByteOr0(t, 6), ByteOr0(t, 7)]
            && b[8..12] == [|t|, ByteOr0(t, 8), ByteOr0(t, 9), ByteOr0(t, 10)]
  {
    var p := t + Fill(11 - |t|, 0);
    assert forall i :: 0 <= i < 11 ==> p[i] == ByteOr0(t, i);
  }

  lemma TailWords(t: Bytes)
    requires |t| < 12
    ensures var b := TailBlock(t);
            && Word32(b[0..4]) == Part(t, 0, 1) + Part(t, 1, 256) + Part(t, 2, 65536) + Part(t, 3, 16777216)
            && Word32(b[4..8]) == Part(t, 4, 1) + Part(t, 5, 256) + Part(t, 6, 65536) + Part(t, 7, 16777216)
            && Word32(b[8..12]) == |t| + Part(t, 8, 256) + Part(t, 9, 65536) + Part(t, 10, 16777216)
  {
    hide TailBlock;
    TailBytes(t);
  }

  lemma SumAgain(x: word, u: word, v: word)
    requires u + v < SPACE
    ensures Sum(Sum(x, u), v) == Sum(x, u + v)
  {
  }

  lemma SumZero(y: word)
    ensures Sum(y, 0) == y
  {
  }

  /** Adding four parts one by one, last first, adds their sum; adding nothing changes nothing. */
  lemma FourAdded(x: word, p0: word, p1: word, p2: word, p3: word)
    requires p0 + p1 + p2 + p3 < SPACE
    ensures Sum(Sum(Sum(Sum(x, p3), p2), p1), p0) == Sum(x, p0 + p1 + p2 + p3)
    ensures forall y: word :: Sum(y, 0) == y
  {
    hide Sum;
    SumAgain(x, p3, p2);
    SumAgain(x, p3 + p2, p1);
    SumAgain(x, p3 + p2 + p1, p0);
    forall y: word ensures Sum(y, 0) == y { SumZero(y); }
  }

  lemma LengthFirst(x: word, n: word, p1: word, p2: word, p3: word)
    requires n + p1 + p2 + p3 < SPACE
    ensures Sum(Sum(Sum(Sum(x, n), p3), p2), p1) == Sum(x, n + p1 + p2 + p3)
  {
    hide Sum;
    SumAgain(x, n, p3);
    SumAgain(x, n + p3, p2);
    SumAgain(x, n + p3 + p2, p1);
  }

  /** Three lines of mix one below the other. */
  function Round(s: State, k: nat, l: nat, n: nat): (r: State) {
    var a := Take(s.a, s.b, s.c, ShiftRight(s.c, k));
    var b := Take(s.b, s.c, a, ShiftLeft(a, l));
    State(a, b, Take(s.c, a, b, ShiftRight(b, n)))
  }

  /** mix is three rounds of three lines. */
  lemma MixInRounds(s: State)
    ensures Mix(s) == Round(Round(Round(s, 13, 8, 13), 12, 16, 5), 3, 10, 15)
  {
  }

  lemma AbsorbTail(t: Bytes, initval: word)
    requires |t| < 12
    ensures var b := (i: nat) => ByteOr0(t, i) as int;
            Absorb(State(GOLDEN, GOLDEN, initval), TailBlock(t)) == State(
              (0x9e3779b9 + b(0) + 256 * b(1) + 65536 * b(2) + 16777216 * b(3)) % SPACE,
              (0x9e3779b9 + b(4) + 256 * b(5) + 65536 * b(6) + 16777216 * b(7)) % SPACE,
              (initval + |t| + 256 * b(8) + 65536 * b(9) + 16777216 * b(10)) % SPACE)
  {
    hide TailBlock, ByteOr0;
    TailBytes(t);
  }

  /** The hash of at most eleven bytes: they and their number are added to the golden ratio and the
      initial value as three words, which are mixed once; the third word is the hash. */
  lemma ShortHash(t: Bytes, initval: word)
    requires |t| < 12
    ensures var b := (i: nat) => ByteOr0(t, i) as int;
            var s := State((0x9e3779b9 + b(0) + 256 * b(1) + 65536 * b(2) + 16777216 * b(3)) % SPACE,
                           (0x9e3779b9 + b(4) + 256 * b(5) + 65536 * b(6) + 16777216 * b(7)) % SPACE,
                           (initval + |t| + 256 * b(8) + 65536 * b(9) + 16777216 * b(10)) % SPACE);
            Hash(t, initval) == Round(Round(Round(s, 13, 8, 13), 12, 16, 5), 3, 10, 15).c
  {
    hide Round, Mix, TailBlock, Absorb, ByteOr0;
    AbsorbTail(t, initval);
    assert Tail(t) == t;
    MixInRounds(Absorb(State(GOLDEN, GOLDEN, initval), TailBlock(t)));
  }

  lemma AbsorbBlock(b: Bytes, s: State)
    requires |b| == 12
    ensures var n := (i: nat) => if i < 12 then b[i] as int else 0;
            Absorb(s, b) == State((s.a + n(0) + 256 * n(1) + 65536 * n(2) + 16777216 * n(3)) % SPACE,
                                  (s.b + n(4) + 256 * n(5) + 65536 * n(6) + 16777216 * n(7)) % SPACE,
                                  (s.c + n(8) + 256 * n(9) + 65536 * n(10) + 16777216 * n(11)) % SPACE)
  {
  }

  /** A longer key first adds twelve bytes as three words, mixes them, and goes on with the rest. */
  lemma FirstBlock(b: Bytes, r: Bytes, s: State)
    requires |b| == 12
    ensures var n := (i: nat) => if i < 12 then b[i] as int else 0;
            var t := State((s.a + n(0) + 256 * n(1) + 65536 * n(2) + 16777216 * n(3)) % SPACE,
                           (s.b + n(4) + 256 * n(5) + 65536 * n(6) + 16777216 * n(7)) % SPACE,
                           (s.c + n(8) + 256 * n(9) + 65536 * n(10) + 16777216 * n(11)) % SPACE);
            AfterBlocks(b + r, s) == AfterBlocks(r, Round(Round(Round(t, 13, 8, 13), 12, 16, 5), 3, 10, 15))
  {
    hide Round, Mix, Absorb;
    AbsorbBlock(b, s);
    MixInRounds(Absorb(s, b));
    assert (b + r)[..12] == b && (b + r)[12..] == r;
  }

  /** The switch over the last bytes, whose cases fall through. */
  method AddTail(s: State, t: Bytes) returns (r: State)
    requires |t| < 12
    ensures r == Absorb(s, TailBlock(t))
  {
    hide Sum, TailBlock, Word32, Times;
    var a, b, c := s.a, s.b, s.c;
    c := Sum(c, |t|);
    if |t| >= 11 { c := Sum(c, Times(t[10], 16777216)); }
    if |t| >= 10 { c := Sum(c, Times(t[9], 65536)); }
    if |t| >= 9 { c := Sum(c, Times(t[8], 256)); }
    if |t| >= 8 { b := Sum(b, Times(t[7], 16777216)); }
    if |t| >= 7 { b := Sum(b, Times(t[6], 65536)); }
    if |t| >= 6 { b := Sum(b, Times(t[5], 256)); }
    if |t| >= 5 { b := Sum(b, t[4]); }
    if |t| >= 4 { a := Sum(a, Times(t[3], 16777216)); }
    if |t| >= 3 { a := Sum(a, Times(t[2], 65536)); }
    if |t| >= 2 { a := Sum(a, Times(t[1], 256)); }
    if |t| >= 1 { a := Sum(a, t[0]); }
    r := State(a, b, c);
    TailWords(t);
    FourAdded(s.a, Part(t, 0, 1), Part(t, 1, 256), Part(t, 2, 65536), Part(t, 3, 16777216));
    FourAdded(s.b, Part(t, 4, 1), Part(t, 5, 256), Part(t, 6, 65536), Part(t, 7, 16777216));
    LengthFirst(s.c, |t|, Part(t, 8, 256), Part(t, 9, 65536), Part(t, 10, 16777216));
    PlainByte(t, 0); PlainByte(t, 4);
  }

  method ComputeHash(key: Key, initval: word) returns (h: word)
    requires |key| < SPACE
    ensures h == Hash(key, initval)
  {
    hide Mix, Sum, Word32;
    var k, len := 0, |key|;
    var s := State(GOLDEN, GOLDEN, initval);
    while len >= 12
      invariant 0 <= len == |key| - k && k % 12 == 0
      invariant AfterBlocks(key, State(GOLDEN, GOLDEN, initval)) == AfterBlocks(key[k..], s)
      decreases len
    {
      assert key[k..][..12] == key[k..k + 12] && key[k..][12..] == key[k + 12..];
      s := Mix(Absorb(s, key[k..k + 12]));
      k, len := k + 12, len - 12;
    }
    assert key[k..] == Tail(key);
    s := AddTail(s, key[k..]);
    s := Mix(s);
    h := s.c;
  }
}
