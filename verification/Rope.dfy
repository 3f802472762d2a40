/** Rope strings (String.c): concatenation keeps a flat list of pieces and adds the hashes; comparison and
    slicing walk the pieces character by character. */
module Rope {
  import opened Options
  import opened Shifts
  import opened Mixer

  /** A character of a C string; zero is the terminator and not one of them. */
  type Byte = x: nat | 0 < x < 256 witness 1

  /** Static and dynamic strings hold their text; a compound string holds a vector of strings. */
  datatype Str =
    | Flat(text: seq<Byte>, hash: nat)
    | Compound(count: nat, hash: nat, pieces: seq<Str>)

  function Count(s: Str): nat {
    if s.Flat? then |s.text| else s.count
  }

  // ---------------------------------------------------------------- text and hash

  function Texts(pieces: seq<Str>): seq<Byte> {
    if pieces == [] then []
    else
      var last := pieces[|pieces| - 1];
      Texts(pieces[..|pieces| - 1]) + if last.Flat? then last.text else []
  }

  /** The flattened text. */
  function Text(s: Str): seq<Byte> {
    if s.Flat? then s.text else Texts(s.pieces)
  }

  /** `char` is signed: the word a character is widened to. */
  function Widened(c: Byte): (w: nat)
    ensures w < WORD64 && w % 256 == c && w / 256 == if c < 128 then 0 else WORD64 / 256 - 1
  {
    if c < 128 then c else WORD64 - 256 + c
  }

  /** What a character adds to a hash. The results about hashes hold for any such function; this is the
      runtime's. */
  function Mix(c: Byte): nat {
    Avalanche(Widened(c))
  }

  function MixSum(mix: Byte -> nat, text: seq<Byte>): nat {
    if text == [] then 0 else MixSum(mix, text[..|text| - 1]) + mix(text[|text| - 1])
  }

  const SEED: nat := 5381

  /** The hash of a text: a sum over its characters modulo 2^64. */
  function Hash(mix: Byte -> nat, text: seq<Byte>): (h: nat)
    ensures h < WORD64
  {
    (SEED + MixSum(mix, text)) % WORD64
  }

  /** A rope has at least two pieces, all of them flat, and its count is the length of the text. */
  predicate Valid(s: Str) {
    && Count(s) == |Text(s)|
    && (s.Compound? ==> 2 <= |s.pieces| && forall i :: 0 <= i < |s.pieces| ==> s.pieces[i].Flat?)
  }

  /** The stored hash, also that of every piece, is the hash of the text. */
  predicate Hashed(mix: Byte -> nat, s: Str) {
    && s.hash == Hash(mix, Text(s))
    && (s.Compound? ==> forall i :: 0 <= i < |s.pieces| ==> s.pieces[i].hash == Hash(mix, Text(s.pieces[i])))
  }

  method ComputeHash(mix: Byte -> nat, text: seq<Byte>) returns (h: nat)
    ensures h == Hash(mix, text)
  {
    h := SEED;
    for i := 0 to |text|
      invariant h == Hash(mix, text[..i])
    {
      assert text[..i + 1][..i] == text[..i];
      ModAdd(SEED + MixSum(mix, text[..i]), mix(text[i]));
      h := (h + mix(text[i])) % WORD64;
    }
    assert text[..|text|] == text;
  }

  /** String_createStatic, with the runtime's own hash. */
  method CreateStatic(text: seq<Byte>) returns (s: Str)
    ensures Valid(s) && Hashed(Mix, s) && s.Flat? && s.text == text
  {
    hide Mix;
    var h := ComputeHash(Mix, text);
    s := Flat(text, h);
  }

  function Piece(mix: Byte -> nat, text: seq<Byte>): (s: Str)
    ensures Valid(s) && Hashed(mix, s) && s.Flat? && s.text == text
  {
    Flat(text, Hash(mix, text))
  }

  /** One character at a time: what it adds is the mixed word, so together with the hash of the empty text this
      determines the hash. */
  lemma HashNext(mix: Byte -> nat, text: seq<Byte>, c: Byte)
    ensures Hash(mix, text + [c]) == (Hash(mix, text) + mix(c)) % WORD64
  {
    assert (text + [c])[..|text|] == text;
    ModAdd(SEED + MixSum(mix, text), mix(c));
  }

  /** A character above 127 is widened with its sign: 255 to the word of all ones. */
  lemma SignedCharacter()
    ensures Mix(255) == Avalanche(WORD64 - 1) == 0xe4b5720b4b825f21
  {
    KnownTop();
  }

  lemma ModAdd(x: nat, y: nat)
    ensures (x % WORD64 + y) % WORD64 == (x + y) % WORD64
  {
    var q, r := x / WORD64, x % WORD64;
    var p, t := (r + y) / WORD64, (r + y) % WORD64;
    DivModUnique(x + y, WORD64, q + p, t);
  }

  lemma {:induction false} MixSumConcat(mix: Byte -> nat, a: seq<Byte>, b: seq<Byte>)
    ensures MixSum(mix, a + b) == MixSum(mix, a) + MixSum(mix, b)
    decreases |b|
  {
    if b == [] {
      assert a + b == a;
    } else {
      MixSumConcat(mix, a, b[..|b| - 1]);
      assert (a + b)[..|a + b| - 1] == a + b[..|b| - 1];
    }
  }

  /** The stored hashes of two strings give the hash of their concatenation. */
  lemma HashConcat(mix: Byte -> nat, a: seq<Byte>, b: seq<Byte>)
    ensures Hash(mix, a + b) == (Hash(mix, a) + Hash(mix, b) + WORD64 - SEED) % WORD64
  {
    hide MixSum;
    MixSumConcat(mix, a, b);
    var x, y := SEED + MixSum(mix, a), SEED + MixSum(mix, b);
    var q, r := x / WORD64, x % WORD64;
    var p, t := y / WORD64, y % WORD64;
    var z := r + t + WORD64 - SEED;
    var k, u := z / WORD64, z % WORD64;
    assert SEED + MixSum(mix, a + b) == x + y - SEED == (q + p + k - 1) * WORD64 + u;
    RemainderIs(SEED + MixSum(mix, a + b), WORD64, q + p + k - 1, u);
  }

  lemma {:induction false} TextsConcat(a: seq<Str>, b: seq<Str>)
    ensures Texts(a + b) == Texts(a) + Texts(b)
    decreases |b|
  {
    if b == [] {
      assert a + b == a;
    } else {
      var n := |b| - 1;
      var last := if b[n].Flat? then b[n].text else [];
      TextsConcat(a, b[..n]);
      assert (a + b)[..|a + b| - 1] == a + b[..n];
      assert Texts(a + b) == Texts(a + b[..n]) + last && Texts(b) == Texts(b[..n]) + last;
    }
  }

  // ---------------------------------------------------------------- concatenation

  function Pieces(s: Str): seq<Str> {
    if s.Compound? then s.pieces else [s]
  }

  lemma PiecesText(s: Str)
    ensures Texts(Pieces(s)) == Text(s)
  {
    if s.Flat? { assert [s][..0] == []; }
  }

  /** The result is again one level of flat pieces, with the text of both and its hash. */
  method CreateCompound(mix: Byte -> nat, left: Str, right: Str) returns (r: Str)
    requires Valid(left) && Valid(right) && Hashed(mix, left) && Hashed(mix, right)
    ensures Valid(r) && Hashed(mix, r) && r.Compound? && Text(r) == Text(left) + Text(right)
    ensures r.pieces == Pieces(left) + Pieces(right)
  {
    hide Valid, Hashed, Hash, Texts;
    CompoundIsValid(mix, left, right);
    EmptyHash(mix);
    var count := Count(left) + Count(right);
    var empty := ComputeHash(mix, []);
    var hash := (left.hash + right.hash + WORD64 - empty) % WORD64;
    var v := Gather(left, right);
    r := Compound(count, hash, v);
  }

  /** The pieces of the left string, then those of the right one. */
  method Gather(left: Str, right: Str) returns (v: seq<Str>)
    ensures v == Pieces(left) + Pieces(right)
  {
    v := if left.Flat? then [left] else left.pieces;
    if right.Flat? {
      v := v + [right];
    } else {
      ghost var before := v;
      for i := 0 to |right.pieces|
        invariant v == before + right.pieces[..i]
      {
        v := v + [right.pieces[i]];
      }
    }
  }

  lemma EmptyHash(mix: Byte -> nat)
    ensures Hash(mix, []) == SEED == 5381
  {
  }

  lemma CompoundIsValid(mix: Byte -> nat, left: Str, right: Str)
    requires Valid(left) && Valid(right) && Hashed(mix, left) && Hashed(mix, right)
    ensures var r := Compound(Count(left) + Count(right), (left.hash + right.hash + WORD64 - SEED) % WORD64,
                              Pieces(left) + Pieces(right));
            Valid(r) && Hashed(mix, r) && Text(r) == Text(left) + Text(right)
  {
    hide Hash, Texts;
    HashConcat(mix, Text(left), Text(right));
    TextsConcat(Pieces(left), Pieces(right));
    PiecesText(left);
    PiecesText(right);
  }

  /** Any tree of concatenations. */
  datatype Tree = Literal(text: seq<Byte>) | Concat(left: Tree, right: Tree)

  function Meaning(t: Tree): seq<Byte> {
    match t
    case Literal(text) => text
    case Concat(left, right) => Meaning(left) + Meaning(right)
  }

  method Build(mix: Byte -> nat, t: Tree) returns (s: Str)
    ensures Valid(s) && Hashed(mix, s) && Text(s) == Meaning(t)
  {
    match t
    case Literal(text) =>
      var h := ComputeHash(mix, text);
      s := Flat(text, h);
    case Concat(left, right) =>
      var l := Build(mix, left);
      var r := Build(mix, right);
      s := CreateCompound(mix, l, r);
  }

  /** Copies the pieces into one buffer. */
  method Compactify(mix: Byte -> nat, s: Str) returns (r: Str)
    requires Valid(s)
    ensures Valid(r) && r.Flat? && Text(r) == Text(s)
    ensures Hashed(mix, s) ==> Hashed(mix, r) && r.hash == s.hash
  {
    if s.Flat? {
      return s;
    }
    hide Hash, Texts;
    var output := Join(s.pieces, s.count);
    var h := ComputeHash(mix, output[..]);
    r := Flat(output[..], h);
  }

  method Join(pieces: seq<Str>, count: nat) returns (output: array<Byte>)
    requires count == |Texts(pieces)| && forall i :: 0 <= i < |pieces| ==> pieces[i].Flat?
    ensures output[..] == Texts(pieces)
  {
    output := new Byte[count](_ => 1);
    var start := 0;
    assert pieces[..0] == [];
    for i := 0 to |pieces|
      invariant start == |Texts(pieces[..i])| <= output.Length
      invariant output.Length == count && fresh(output)
      invariant output[..start] == Texts(pieces[..i])
    {
      NextPiece(pieces, i);
      hide Texts;
      CopyBlock(output, start, pieces[i].text);
      start := start + |pieces[i].text|;
    }
    assert pieces[..|pieces|] == pieces;
    assert output[..] == output[..start];
  }

  method CopyBlock(output: array<Byte>, start: nat, block: seq<Byte>)
    requires start + |block| <= output.Length
    modifies output
    ensures output[..start + |block|] == old(output[..start]) + block
  {
    forall k | 0 <= k < |block| { output[start + k] := block[k]; }
  }

  lemma NextPiece(pieces: seq<Str>, i: nat)
    requires i < |pieces| && pieces[i].Flat?
    ensures Texts(pieces[..i + 1]) == Texts(pieces[..i]) + pieces[i].text
    ensures |Texts(pieces[..i + 1])| <= |Texts(pieces)|
            && Texts(pieces[..i + 1]) == Texts(pieces)[..|Texts(pieces[..i + 1])|]
  {
    assert pieces[..i + 1][..i] == pieces[..i];
    assert pieces == pieces[..i + 1] + pieces[i + 1..];
    TextsConcat(pieces[..i + 1], pieces[i + 1..]);
  }

  // ---------------------------------------------------------------- searching

  predicate MatchAt(s: seq<Byte>, t: seq<Byte>, i: nat) {
    i + |t| <= |s| && s[i..i + |t|] == t
  }

  /** The first match at or after the start, or -1 exactly when there is none. An empty target is found at once;
      a start at or past the end finds only an empty target, and reports the end. */
  method IndexOfFrom(mix: Byte -> nat, self: Str, other: Str, from: int) returns (r: int)
    requires Valid(self) && Valid(other)
    ensures var (s, t) := (Text(self), Text(other));
            var start := if from < 0 then 0 else from;
            if from >= |s| then r == if t == [] then |s| else -1
            else
              && (r != -1 ==> start <= r && MatchAt(s, t, r) && forall i :: start <= i < r ==> !MatchAt(s, t, i))
              && (r == -1 <==> forall i :: start <= i ==> !MatchAt(s, t, i))
  {
    var selfCount, otherCount := Count(self), Count(other);
    if from >= selfCount {
      return if otherCount == 0 then selfCount else -1;
    }
    var fromIndex := if from < 0 then 0 else from;
    if otherCount == 0 {
      assert MatchAt(Text(self), Text(other), fromIndex);
      return fromIndex;
    }
    var compactSelf := Compactify(mix, self);
    var compactOther := Compactify(mix, other);
    r := Search(compactSelf.text, compactOther.text, fromIndex);
  }

  method Search(source: seq<Byte>, target: seq<Byte>, from: nat) returns (r: int)
    requires target != []
    ensures r != -1 ==> from <= r && MatchAt(source, target, r)
    ensures r != -1 ==> forall i :: from <= i < r ==> !MatchAt(source, target, i)
    ensures r == -1 <==> forall i :: from <= i ==> !MatchAt(source, target, i)
  {
    var first := target[0];
    var max := |source| - |target|;
    var i := from;
    while i <= max
      invariant from <= i
      invariant forall j :: from <= j < i ==> !MatchAt(source, target, j)
      decreases max - i
    {
      if source[i] != first {
        assert !MatchAt(source, target, i) by { FirstDiffers(source, target, i); }
        i := i + 1;
        while i <= max && source[i] != first
          invariant from <= i <= max + 1
          invariant forall j :: from <= j < i ==> !MatchAt(source, target, j)
          decreases max - i
        {
          FirstDiffers(source, target, i);
          i := i + 1;
        }
      }
      if i <= max {
        var hit := MatchesFrom(source, target, i);
        if hit {
          return i;
        }
      }
      i := i + 1;
    }
    return -1;
  }

  lemma FirstDiffers(source: seq<Byte>, target: seq<Byte>, i: nat)
    requires target != [] && i + |target| <= |source| && source[i] != target[0]
    ensures !MatchAt(source, target, i)
  {
    assert source[i..i + |target|][0] == source[i];
  }

  /** The first character is known to match. */
  method MatchesFrom(source: seq<Byte>, target: seq<Byte>, i: nat) returns (hit: bool)
    requires target != [] && i + |target| <= |source| && source[i] == target[0]
    ensures hit <==> MatchAt(source, target, i)
  {
    var j, k, end := i + 1, 1, i + |target|;
    while j < end && source[j] == target[k]
      invariant i < j <= end && k == j - i
      invariant forall m :: 0 <= m < k ==> source[i + m] == target[m]
      decreases end - j
    {
      j, k := j + 1, k + 1;
    }
    if j != end {
      assert source[i..end][k] == source[j];
    }
    return j == end;
  }

  // ---------------------------------------------------------------- walking the characters

  /** What a byte of memory may hold. */
  type Char = x: nat | x < 256

  /** The character at a place of a C string: its terminator just past the end. */
  function CharAt(block: seq<Byte>, i: nat): Char {
    if i < |block| then block[i] else 0
  }

  /** The byte read at offset `i`; `beyond` is what lies in memory at each distance past the terminator. */
  function Read(block: seq<Byte>, beyond: nat -> Char, i: nat): Char {
    if i <= |block| then CharAt(block, i) else beyond(i - |block|)
  }

  /** `blockLength - 1` on an unsigned word. */
  function LessOne(n: nat): nat {
    if n == 0 then WORD64 - 1 else n - 1
  }

  /** The number of pieces before the first empty one: as far as a walk gets before it meets a terminator. */
  function Seen(pieces: seq<Str>): (n: nat)
    ensures n <= |pieces| && (forall i :: 0 <= i < n ==> Count(pieces[i]) != 0)
            && (n < |pieces| ==> Count(pieces[n]) == 0)
  {
    if pieces == [] || Count(pieces[0]) == 0 then 0 else 1 + Seen(pieces[1..])
  }

  function VisibleText(s: Str): seq<Byte> {
    Texts(Pieces(s)[..Seen(Pieces(s))])
  }

  lemma VisibleIsPrefix(s: Str)
    ensures VisibleText(s) <= Text(s)
  {
    var ps := Pieces(s);
    PiecesText(s);
    assert ps == ps[..Seen(ps)] + ps[Seen(ps)..];
    TextsConcat(ps[..Seen(ps)], ps[Seen(ps)..]);
  }

  /** A character of a piece in the flattened text. */
  lemma Spot(pieces: seq<Str>, p: nat, k: nat)
    requires p < |pieces| && pieces[p].Flat? && k < |pieces[p].text|
    ensures var i := |Texts(pieces[..p])| + k; i < |Texts(pieces)| && Texts(pieces)[i] == pieces[p].text[k]
  {
    NextPiece(pieces, p);
  }

  lemma VisibleSpot(s: Str, p: nat, k: nat)
    requires Valid(s) && p < Seen(Pieces(s)) && k < |Pieces(s)[p].text|
    ensures var i := |Texts(Pieces(s)[..p])| + k; i < |VisibleText(s)| && VisibleText(s)[i] == Pieces(s)[p].text[k]
  {
    hide Hash, Texts;
    var ps := Pieces(s)[..Seen(Pieces(s))];
    assert ps[..p] == Pieces(s)[..p];
    Spot(ps, p, k);
  }

  /** The next place: the same piece, or the end, or the start of the next piece. */
  lemma NextSpot(s: Str, p: nat, k: nat)
    requires Valid(s) && p < Seen(Pieces(s)) && k < |Pieces(s)[p].text|
    ensures var (i, ps) := (|Texts(Pieces(s)[..p])| + k, Pieces(s));
            && (k + 1 < |ps[p].text| ==> i + 1 < Count(s))
            && (k + 1 == |ps[p].text| && i + 1 != Count(s) ==> p + 1 < |ps| && i + 1 == |Texts(ps[..p + 1])|)
  {
    var ps := Pieces(s);
    PiecesText(s);
    NextPiece(ps, p);
    if p + 1 == |ps| { assert ps[..p + 1] == ps; }
  }

  /** Offset `k` of piece `p` is character `i` of the visible text, or the terminator that ends it, or, once that
      has been stepped over, somewhere beyond. */
  ghost predicate AtPlace(s: Str, p: nat, k: nat, i: nat) {
    && Valid(s) && p < |Pieces(s)| && p <= Seen(Pieces(s))
    && i == |Texts(Pieces(s)[..p])| + k
    && (p < Seen(Pieces(s)) ==> k < |Pieces(s)[p].text|)
  }

  /** Where a walk goes from there. */
  lemma NextPlace(s: Str, p: nat, k: nat, i: nat)
    requires AtPlace(s, p, k, i)
    ensures p < |Pieces(s)|
    ensures var len := Count(Pieces(s)[p]);
            && (i < |VisibleText(s)| <==> len != 0)
            && (len != 0 ==> k < len)
            && (len != 0 && k + 1 < len ==> AtPlace(s, p, k + 1, i + 1) && i + 1 < Count(s))
            && (len != 0 && k + 1 == len && i + 1 != Count(s) ==> p + 1 < |Pieces(s)| && AtPlace(s, p + 1, 0, i + 1))
            && (len == 0 ==> AtPlace(s, p, k + 1, i + 1) && k <= i)
  {
    hide Texts;
    if p < Seen(Pieces(s)) {
      VisibleSpot(s, p, k);
      NextSpot(s, p, k);
    }
  }

  class StringIterator {
    var index: nat
    var inBlockIndex: nat
    var piece: nat
    const current: Str

    constructor (s: Str)
      requires Valid(s)
      ensures current == s && At(0)
    {
      index, inBlockIndex, piece, current := 0, 0, 0, s;
      new;
      assert Pieces(s)[..0] == [];
    }

    ghost predicate At(i: nat)
      reads this
    {
      index == i && AtPlace(current, piece, inBlockIndex, i)
    }

    /** Zero is the terminator. */
    method Get(beyond: nat -> Char, ghost i: nat) returns (c: Char)
      requires At(i)
      ensures c == Read(VisibleText(current), beyond, i)
    {
      hide Hash, Texts;
      if piece < Seen(Pieces(current)) { VisibleSpot(current, piece, inBlockIndex); }
      c := Read(Pieces(current)[piece].text, beyond, inBlockIndex);
    }

    /** Moves on by one character. On the last one of the string it stays, and reports the end; on a terminator
        inside it moves on into whatever follows, since an empty piece's length less one is the largest word. */
    method Next(ghost i: nat) returns (end: bool)
      requires At(i) && (i < |VisibleText(current)| || i < WORD64 - 1)
      modifies this
      ensures end <==> i + 1 == Count(current) && i < |VisibleText(current)|
      ensures At(if end then i else i + 1)
    {
      hide AtPlace, VisibleText, Pieces;
      NextPlace(current, piece, inBlockIndex, i);
      var blockLength := Count(Pieces(current)[piece]);
      if inBlockIndex < LessOne(blockLength) {
        index, inBlockIndex := index + 1, inBlockIndex + 1;
        return false;
      }
      if Count(current) == index + 1 {
        return true;
      }
      inBlockIndex := 0;
      index, piece := index + 1, piece + 1;
      return false;
    }
  }

  // ---------------------------------------------------------------- equality

  /** What the comparison computes on any two strings. */
  predicate EqualsSpec(left: Str, right: Str) {
    && Count(left) == Count(right)
    && if left.Flat? && right.Flat? then left.text == right.text else VisibleText(left) <= VisibleText(right)
  }

  method Equals(self: Str, other: Str, beyond: nat -> Char) returns (r: bool)
    requires Valid(self) && Valid(other)
    ensures r <==> EqualsSpec(self, other)
  {
    if Count(self) != Count(other) {
      return false;
    }
    if self.Flat? && other.Flat? {
      return self.text == other.text;
    }
    r := Walk(self, other, beyond);
  }

  lemma Sizes(s: Str)
    requires Valid(s)
    ensures |Text(s)| == Count(s)
  {
  }

  method Walk(self: Str, other: Str, beyond: nat -> Char) returns (r: bool)
    requires Valid(self) && Valid(other) && Count(self) == Count(other)
    ensures r <==> VisibleText(self) <= VisibleText(other)
  {
    hide Hash, Texts, Valid, VisibleText, Seen;
    ghost var (lv, rv) := (VisibleText(self), VisibleText(other));
    Sizes(self);
    Sizes(other);
    VisibleIsPrefix(self);
    VisibleIsPrefix(other);
    var left := new StringIterator(self);
    var right := new StringIterator(other);
    var leftChar := left.Get(beyond, 0);
    var rightChar := right.Get(beyond, 0);
    ghost var i := 0;
    while leftChar != 0
      invariant left != right && left.current == self && right.current == other
      invariant i <= |lv| && i <= |rv| && lv[..i] == rv[..i]
      invariant leftChar == CharAt(lv, i) && rightChar == CharAt(rv, i)
      invariant leftChar != 0 ==> left.At(i) && right.At(i)
      decreases |lv| - i
    {
      if leftChar != rightChar {
        return false;
      }
      var leftEnd := left.Next(i);
      var rightEnd := right.Next(i);
      i := i + 1;
      leftChar, rightChar := 0, 0;
      if !leftEnd { leftChar := left.Get(beyond, i); }
      if !rightEnd { rightChar := right.Get(beyond, i); }
    }
    return true;
  }

  /** Every empty piece comes after the whole text. */
  predicate Clean(s: Str) {
    VisibleText(s) == Text(s)
  }

  lemma NonEmptyIsClean(s: Str)
    requires Valid(s)
    requires s.Compound? ==> forall i :: 0 <= i < |s.pieces| ==> s.pieces[i].text != []
    ensures Clean(s)
  {
    var ps := Pieces(s);
    PiecesText(s);
    if s.Compound? || s.text != [] {
      assert ps[..Seen(ps)] == ps;
    } else {
      assert Texts([s][..0]) == [];
    }
  }

  /** On clean strings the comparison is equality of the texts. */
  lemma EqualsIsTextEquality(left: Str, right: Str)
    requires Valid(left) && Valid(right) && Clean(left) && Clean(right)
    ensures EqualsSpec(left, right) <==> Text(left) == Text(right)
  {
  }

  /** A text of the same length that differs in the last character only. */
  function Altered(text: seq<Byte>): (r: seq<Byte>)
    requires text != []
    ensures |r| == |text| && r != text && r[..|text| - 1] == text[..|text| - 1]
  {
    text[|text| - 1 := if text[|text| - 1] == 1 then 2 else 1]
  }

  /** A rope compares as its text against every clean string exactly when it is clean itself: with an empty
      piece inside, it also "equals" a string that differs after that piece. */
  lemma CleanIsNeeded(left: Str)
    requires Valid(left) && left.Compound?
    ensures Clean(left) <==>
            forall right :: Valid(right) && Clean(right) ==> (EqualsSpec(left, right) <==> Text(left) == Text(right))
  {
    if Clean(left) {
      forall right | Valid(right) && Clean(right) ensures EqualsSpec(left, right) <==> Text(left) == Text(right) {
        EqualsIsTextEquality(left, right);
      }
    } else {
      VisibleIsPrefix(left);
      var other := Altered(Text(left));
      var right := Flat(other, left.hash);
      NonEmptyIsClean(right);
      assert VisibleText(left) <= other;
      assert EqualsSpec(left, right) && Text(left) != Text(right);
    }
  }

  /** On the other side, a rope equals its own flat copy exactly when it is clean. */
  lemma CleanIsNeededRight(right: Str)
    requires Valid(right) && right.Compound?
    ensures Clean(right) <==> EqualsSpec(Flat(Text(right), right.hash), right)
  {
    var left := Flat(Text(right), right.hash);
    NonEmptyIsClean(left);
    VisibleIsPrefix(right);
  }

  // ---------------------------------------------------------------- slicing

  /** The position after `i` steps: a walk that has seen the whole text stops on its last character. */
  function Stand(s: Str, i: nat): nat {
    if |VisibleText(s)| != Count(s) || i < Count(s) then i else if Count(s) == 0 then 0 else Count(s) - 1
  }

  /** What charAt yields: the visible text, its terminator, and then what lies beyond. None is the index error. */
  method CharacterAt(self: Str, index: nat, beyond: nat -> Char) returns (r: Option<Char>)
    requires Valid(self) && Count(self) < WORD64
    ensures r == if index < |Text(self)| then Some(Read(VisibleText(self), beyond, index)) else None
  {
    if index >= Count(self) {
      return None;
    }
    hide Hash, Texts, VisibleText, Seen, Pieces;
    var it := new StringIterator(self);
    for i := 0 to index
      invariant it.current == self && it.At(i)
    {
      var _ := it.Next(i);
    }
    var c := it.Get(beyond, index);
    r := Some(c);
  }

  /** charAt answers with the character of the text, whatever lies in memory, exactly for an index before the first
      empty piece inside. */
  lemma CharacterAtIsRightIff(s: Str, index: nat)
    requires Valid(s) && index < |Text(s)|
    ensures (forall beyond: nat -> Char :: Read(VisibleText(s), beyond, index) == Text(s)[index]) <==>
            index < |VisibleText(s)|
  {
    VisibleIsPrefix(s);
    var zeros: nat -> Char := _ => 0;
    if |VisibleText(s)| <= index { assert Read(VisibleText(s), zeros, index) != Text(s)[index]; }
  }

  /** The result of subs: a buffer of `count` bytes and a stored hash. */
  datatype Slice = Slice(buffer: seq<Char>, count: nat, hash: nat)

  /** The bytes a walk reads from `start` up to `end`. */
  function Bytes(s: Str, beyond: nat -> Char, start: nat, end: nat): (r: seq<Char>)
    requires start <= end
    ensures |r| == end - start && forall i :: 0 <= i < |r| ==> r[i] == Read(VisibleText(s), beyond, start + i)
  {
    seq<Char>(end - start, (i: nat) => Read(VisibleText(s), beyond, start + i))
  }

  /** A buffer as a C string: up to its first zero. */
  function CString(buffer: seq<Char>): (text: seq<Byte>)
    ensures text <= buffer
  {
    if buffer == [] || buffer[0] == 0 then [] else [buffer[0]] + CString(buffer[1..])
  }

  lemma {:induction false} CStringIsAll(buffer: seq<Char>)
    requires forall i :: 0 <= i < |buffer| ==> buffer[i] != 0
    ensures CString(buffer) == buffer
  {
    if buffer != [] { CStringIsAll(buffer[1..]); }
  }

  /** None is the index error. */
  method Subs(mix: Byte -> nat, self: Str, start: nat, end: nat, beyond: nat -> Char) returns (r: Option<Slice>)
    requires Valid(self) && Count(self) < WORD64
    ensures r.None? <==> start > end || end > |Text(self)|
    ensures r.Some? ==> && r.value.count == end - start && r.value.buffer == Bytes(self, beyond, start, end)
                        && r.value.hash == Hash(mix, CString(r.value.buffer))
  {
    if start > end || end > Count(self) {
      return None;
    }
    Sizes(self);
    hide Hash, Texts, VisibleText, Seen, Pieces;
    var it := new StringIterator(self);
    Skip(it, start);
    var dest := Take(it, start, end - start, beyond);
    var h := ComputeHash(mix, CString(dest));
    r := Some(Slice(dest, end - start, h));
  }

  method Skip(it: StringIterator, n: nat)
    requires it.At(0) && n <= Count(it.current) < WORD64
    modifies it
    ensures it.At(Stand(it.current, n))
  {
    hide Hash, Texts, VisibleText, Seen, Pieces;
    Sizes(it.current);
    VisibleIsPrefix(it.current);
    for i := 0 to n
      invariant it.At(Stand(it.current, i))
    {
      var _ := it.Next(Stand(it.current, i));
    }
  }

  method Take(it: StringIterator, start: nat, len: nat, beyond: nat -> Char) returns (dest: seq<Char>)
    requires it.At(Stand(it.current, start)) && start + len <= Count(it.current) < WORD64
    modifies it
    ensures dest == Bytes(it.current, beyond, start, start + len)
  {
    hide Hash, Texts, VisibleText, Seen, Pieces;
    Sizes(it.current);
    VisibleIsPrefix(it.current);
    dest := [];
    for i := 0 to len
      invariant it.At(Stand(it.current, start + i))
      invariant dest == Bytes(it.current, beyond, start, start + i)
    {
      var c := it.Get(beyond, start + i);
      dest := dest + [c];
      var _ := it.Next(start + i);
    }
  }

  /** subs is the slice of the text, whatever lies in memory, exactly when the slice is empty or ends before the
      first empty piece inside; its hash is then the slice's. */
  lemma SubsIsSliceIff(mix: Byte -> nat, s: Str, start: nat, end: nat)
    requires Valid(s) && start <= end <= |Text(s)|
    ensures (forall beyond :: Bytes(s, beyond, start, end) == Text(s)[start..end]) <==>
            start == end || end <= |VisibleText(s)|
    ensures start == end || end <= |VisibleText(s)| ==>
              forall beyond :: Hash(mix, CString(Bytes(s, beyond, start, end))) == Hash(mix, Text(s)[start..end])
  {
    VisibleIsPrefix(s);
    hide Hash, VisibleText, Texts;
    var text := Text(s);
    assert VisibleText(s) == text[..|VisibleText(s)|];
    if start == end || end <= |VisibleText(s)| {
      forall beyond: nat -> Char
        ensures Bytes(s, beyond, start, end) == text[start..end] == CString(Bytes(s, beyond, start, end))
      {
        assert Bytes(s, beyond, start, end) == text[start..end];
        CStringIsAll(Bytes(s, beyond, start, end));
      }
    } else {
      var zeros: nat -> Char := _ => 0;
      assert Bytes(s, zeros, start, end)[end - 1 - start] == 0 != text[start..end][end - 1 - start];
    }
  }

  /** "a", "" and "b" put together: the text is "ab", but a walk sees "a". So the rope equals "ac" and is not
      equalled by "ab", its second character reads as the terminator, and so does the slice that has it. */
  method EmptyPieceInside(mix: Byte -> nat, beyond: nat -> Char)
    returns (s: Str, sameAsOther: bool, copyIsSame: bool, second: Option<Char>, slice: Option<Slice>)
    ensures Valid(s) && Text(s) == [97, 98] && !Clean(s)
    ensures sameAsOther && !copyIsSame && second == Some(0) && slice.Some? && slice.value.buffer == [0]
  {
    hide Hash, Hashed, Texts, VisibleText, Seen, Valid, Text, Pieces;
    s := AEmptyB(mix);
    Sizes(s);
    var other, copy := Piece(mix, [97, 99]), Piece(mix, [97, 98]);
    FlatIsVisible(other);
    FlatIsVisible(copy);
    sameAsOther := Equals(s, other, beyond);
    copyIsSame := Equals(copy, s, beyond);
    second := CharacterAt(s, 1, beyond);
    slice := Subs(mix, s, 1, 2, beyond);
    assert Bytes(s, beyond, 1, 2)[0] == 0;
  }

  method AEmptyB(mix: Byte -> nat) returns (s: Str)
    ensures Valid(s) && s.Compound? && Text(s) == [97, 98] && VisibleText(s) == [97]
  {
    hide Hash, Hashed, Texts, VisibleText;
    var a, e, b := Piece(mix, [97]), Piece(mix, []), Piece(mix, [98]);
    s := CreateCompound(mix, a, e);
    s := CreateCompound(mix, s, b);
    ThreePieces(s, a, e, b);
  }

  lemma FlatIsVisible(s: Str)
    requires Valid(s) && s.Flat?
    ensures VisibleText(s) == s.text
  {
    NonEmptyIsClean(s);
  }

  lemma ThreePieces(s: Str, a: Str, e: Str, b: Str)
    requires s.Compound? && s.pieces == [a, e, b] && a.Flat? && e.Flat? && b.Flat? && a.text != [] && e.text == []
    ensures VisibleText(s) == a.text && Text(s) == a.text + b.text
  {
    hide Texts;
    PiecesText(a);
    PiecesText(b);
    PiecesText(e);
    TextsConcat([a], [e]);
    TextsConcat([a, e], [b]);
    assert [a] + [e] == [a, e] && [a, e] + [b] == [a, e, b];
    assert s.pieces[1..][0] == e && Seen(s.pieces[1..]) == 0 && Seen(s.pieces) == 1;
    assert s.pieces[..1] == [a];
  }
}
