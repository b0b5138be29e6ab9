/** Positional numerals, and the Base58 text form of a byte vector (src/base58.cpp). */
module Base58Spec {
  import opened ArithSpec
  import opened Wrappers

  // ----- numerals, most significant digit first

  predicate Digitwise(base: nat, d: seq<nat>) { forall i | 0 <= i < |d| :: d[i] < base }

  function Number(base: nat, d: seq<nat>): nat {
    if d == [] then 0 else Number(base, d[..|d| - 1]) * base + d[|d| - 1]
  }

  /** The numeral of a number, without leading zeros. */
  function Digits(base: nat, n: nat): seq<nat>
    requires base > 1
  {
    if n == 0 then [] else
      Shrinks(base, n);
      Digits(base, n / base) + [n % base]
  }

  lemma Shrinks(base: nat, n: nat)
    requires base > 1 && n > 0
    ensures 0 <= n / base < n && n == n / base * base + n % base && 0 <= n % base < base
  {
    var q := n / base;
    if q > 0 { MulStrict(1, base, q); }
  }

  lemma NumberAppend(base: nat, d: seq<nat>, x: nat)
    ensures Number(base, d + [x]) == Number(base, d) * base + x
  {
    assert (d + [x])[..|d|] == d;
  }

  lemma {:induction false} DigitsOk(base: nat, n: nat)
    requires base > 1
    ensures Digitwise(base, Digits(base, n)) && (Digits(base, n) != [] ==> Digits(base, n)[0] != 0)
    ensures Number(base, Digits(base, n)) == n
    decreases n
  {
    if n > 0 {
      Shrinks(base, n);
      var q, x := n / base, n % base;
      DigitsOk(base, q);
      hide Number;
      NumberAppend(base, Digits(base, q), x);
      if q == 0 { assert Digits(base, q) == []; }
    }
  }

  lemma {:induction false} NumberPositive(base: nat, d: seq<nat>)
    requires base > 0 && d != [] && d[0] != 0
    ensures Number(base, d) > 0
  {
    if |d| > 1 {
      NumberPositive(base, d[..|d| - 1]);
      MulPositive(Number(base, d[..|d| - 1]), base);
    }
  }

  /** A numeral without leading zeros is the only one for its number. */
  lemma {:induction false} DigitsUnique(base: nat, d: seq<nat>)
    requires base > 1 && Digitwise(base, d) && (d != [] ==> d[0] != 0)
    ensures Digits(base, Number(base, d)) == d
  {
    if d != [] {
      var head, x := d[..|d| - 1], d[|d| - 1];
      NumberPositive(base, d);
      DigitsUnique(base, head);
      DivModUnique(Number(base, d), base, Number(base, head), x);
      assert d == head + [x];
    }
  }

  lemma {:induction false} NumberBound(base: nat, d: seq<nat>)
    requires base > 0 && Digitwise(base, d)
    ensures Number(base, d) < Pow(base, |d|)
  {
    if d != [] {
      var head := d[..|d| - 1];
      NumberBound(base, head);
      MulStrict(Number(base, head), Pow(base, |head|), base);
      Distrib(Number(base, head), 1, base);
      assert Pow(base, |d|) == Pow(base, |head|) * base;
    }
  }

  lemma {:induction false} NumberHead(base: nat, x: nat, d: seq<nat>)
    ensures Number(base, [x] + d) == x * Pow(base, |d|) + Number(base, d)
  {
    if d == [] {
      assert [x] + d == [x] && [x][..0] == [];
    } else {
      var head := d[..|d| - 1];
      NumberHead(base, x, head);
      assert ([x] + d)[..|d|] == [x] + head;
      var p := Pow(base, |head|);
      Distrib(x * p, Number(base, head), base);
      Assoc(x, p, base);
      assert Pow(base, |d|) == p * base;
    }
  }

  /** The number of leading zeros. */
  function Zeros(d: seq<nat>): (z: nat)
    ensures z <= |d| && (forall i | 0 <= i < z :: d[i] == 0) && (z < |d| ==> d[z] != 0)
  {
    if d == [] || d[0] != 0 then 0 else 1 + Zeros(d[1..])
  }

  lemma ZerosIs(d: seq<nat>, z: nat)
    requires z <= |d| && (forall i | 0 <= i < z :: d[i] == 0) && (z < |d| ==> d[z] != 0)
    ensures Zeros(d) == z
  {
  }

  lemma {:induction false} DropZeros(base: nat, d: seq<nat>, k: nat)
    requires k <= |d| && forall i | 0 <= i < k :: d[i] == 0
    ensures Number(base, d) == Number(base, d[k..])
  {
    if k > 0 {
      NumberHead(base, 0, d[1..]);
      assert d == [0] + d[1..];
      DropZeros(base, d[1..], k - 1);
      assert d[1..][k - 1..] == d[k..];
    } else {
      assert d[0..] == d;
    }
  }

  // ----- changing the base, keeping the leading zeros

  function Repeat<T>(x: T, n: nat): (s: seq<T>) { seq(n, _ => x) }

  /** Each leading zero stays one digit; the rest is the same number in the other base. */
  function Convert(from: nat, to: nat, d: seq<nat>): (r: seq<nat>)
    requires to > 1
    ensures Digitwise(to, r) && Zeros(r) == Zeros(d) && Number(to, r) == Number(from, d)
  {
    var tail := Digits(to, Number(from, d));
    var r := Repeat(0, Zeros(d)) + tail;
    DigitsOk(to, Number(from, d));
    ZerosIs(r, Zeros(d));
    DropZeros(to, r, Zeros(d));
    assert r[Zeros(d)..] == tail;
    r
  }

  /** Changing the base there and back gives every numeral again, leading zeros and all. */
  lemma ConvertBack(from: nat, to: nat, d: seq<nat>)
    requires from > 1 && to > 1 && Digitwise(from, d)
    ensures Convert(to, from, Convert(from, to, d)) == d
  {
    var z := Zeros(d);
    DropZeros(from, d, z);
    DigitsUnique(from, d[z..]);
    assert d == Repeat(0, z) + d[z..];
  }

  // ----- how much room the other base needs

  lemma {:induction false} PowAdd(b: nat, m: nat, n: nat)
    ensures Pow(b, m + n) == Pow(b, m) * Pow(b, n)
  {
    if m > 0 {
      PowAdd(b, m - 1, n);
      Assoc(b, Pow(b, m - 1), Pow(b, n));
    }
  }

  lemma {:induction false} PowOfPow(b: nat, m: nat, n: nat)
    ensures Pow(Pow(b, m), n) == Pow(b, m * n)
  {
    if n > 0 {
      PowOfPow(b, m, n - 1);
      PowAdd(b, m, m * (n - 1));
      assert m + m * (n - 1) == m * n;
    } else {
      assert m * n == 0;
    }
  }

  lemma PowSwap(b: nat, j: nat, n: nat)
    ensures Pow(Pow(b, j), n) == Pow(Pow(b, n), j)
  {
    hide Pow;
    PowOfPow(b, j, n);
    PowOfPow(b, n, j);
    assert n * j == j * n;
  }

  lemma PowGrow(a: nat, i: nat, n: nat, m: nat, j: nat)
    requires a > 0 && i * n <= j * m
    ensures Pow(Pow(a, i), n) <= Pow(Pow(a, m), j)
  {
    hide Pow;
    PowOfPow(a, i, n);
    PowSwap(a, m, j);
    PowOfPow(a, j, m);
    PowExpMono(a, i * n, j * m);
  }

  /** A comparison of two fixed powers carries over to all exponents in the same proportion. */
  lemma Proportion(a: nat, b: nat, i: nat, j: nat, m: nat, n: nat)
    requires a > 0 && j > 0 && Pow(b, j) <= Pow(a, i) && i * n <= j * m
    ensures Pow(b, n) <= Pow(a, m)
  {
    hide Pow;
    PowMono(Pow(b, j), Pow(a, i), n);
    PowGrow(a, i, n, m, j);
    PowSwap(b, j, n);
    if Pow(a, m) < Pow(b, n) {
      PowStrict(Pow(a, m), Pow(b, n), j);
    }
  }

  /** 58^11 >= 256^8. */
  lemma Eight256()
    ensures Pow(256, 8) <= Pow(58, 11)
  {
    assert Pow(256, 4) == 4294967296;
    PowAdd(256, 4, 4);
    assert Pow(58, 5) == 656356768;
    PowAdd(58, 5, 5);
    PowAdd(58, 10, 1);
    assert Pow(58, 1) == 58;
  }

  lemma Pow58Is()
    ensures Pow(58, 35) == 52478302028992644968172978478148648556151605660894866578604032
  {
    assert Pow(58, 7) == 2207984167552;
    PowAdd(58, 7, 7);
    PowAdd(58, 14, 14);
    PowAdd(58, 28, 7);
  }

  lemma Pow256Is()
    ensures Pow(256, 26) == 411376139330301510538742295639337626245683966408394965837152256
  {
    assert Pow(256, 3) == 16777216;
    PowAdd(256, 3, 3);
    PowAdd(256, 6, 6);
    PowAdd(256, 12, 1);
    PowAdd(256, 13, 13);
    assert Pow(256, 1) == 256;
  }

  /** 58^71 <= 256^52, with less than a tenth of a bit to spare. */
  lemma Seventy58()
    ensures Pow(58, 71) <= Pow(256, 52)
  {
    Pow58Is();
    Pow256Is();
    PowAdd(58, 35, 35);
    PowAdd(58, 70, 1);
    PowAdd(256, 26, 26);
    assert Pow(58, 1) == 58;
  }

  /** The Base58 buffer that encoding allocates holds every number of `n` bytes. */
  lemma EncodeRoom(n: nat)
    ensures Pow(256, n) <= Pow(58, n * 138 / 100 + 1)
  {
    hide Pow;
    Eight256();
    Proportion(58, 256, 11, 8, n * 138 / 100 + 1, n);
  }

  /** The byte buffer that decoding allocates holds every number of `n` Base58 digits. */
  lemma DecodeRoom(n: nat)
    ensures Pow(58, n) <= Pow(256, n * 733 / 1000 + 1)
  {
    hide Pow;
    Seventy58();
    Proportion(256, 58, 52, 71, n * 733 / 1000 + 1, n);
  }

  // ----- text

  function Range(first: char, last: char): (s: string)
    requires first <= last <= '~'
    ensures |s| == last as int - first as int + 1
    ensures forall i | 0 <= i < |s| :: s[i] as int == first as int + i
  {
    seq(last as int - first as int + 1, i requires 0 <= i <= last as int - first as int => (first as int + i) as char)
  }

  /** Digits and letters, without 0, I, O and l. */
  function Alphabet(): (s: string)
    ensures |s| == 58 && s[0] == '1'
    ensures forall i, j | 0 <= i < j < 58 :: s[i] < s[j]
  {
    var digits, upper1, upper2, upper3 := Range('1', '9'), Range('A', 'H'), Range('J', 'N'), Range('P', 'Z');
    var lower1, lower2 := Range('a', 'k'), Range('m', 'z');
    digits + upper1 + upper2 + upper3 + lower1 + lower2
  }

  lemma AlphabetText()
    ensures Alphabet() == "123456789" + "ABCDEFGH" + "JKLMN" + "PQRSTUVWXYZ" + "abcdefghijk" + "mnopqrstuvwxyz"
  {
    assert Range('1', '9') == "123456789";
    assert Range('A', 'H') == "ABCDEFGH";
    assert Range('J', 'N') == "JKLMN";
    assert Range('P', 'Z') == "PQRSTUVWXYZ";
    assert Range('a', 'k') == "abcdefghijk";
    assert Range('m', 'z') == "mnopqrstuvwxyz";
  }

  /** `strchr`: the first place of a character, or the length. */
  function IndexIn(s: string, c: char): (k: nat)
    ensures k <= |s| && (k < |s| ==> s[k] == c) && (forall i | 0 <= i < k :: s[i] != c)
  {
    if s == [] || s[0] == c then 0 else 1 + IndexIn(s[1..], c)
  }

  predicate IsSpace(c: char) { c == ' ' || '\t' <= c <= '\r' }

  predicate AllSpaces(s: string) { forall i | 0 <= i < |s| :: IsSpace(s[i]) }

  predicate NoSpaces(s: string) { forall i | 0 <= i < |s| :: !IsSpace(s[i]) }

  predicate InAlphabet(s: string) { forall i | 0 <= i < |s| :: s[i] in Alphabet() }

  function Chars(d: seq<nat>): (s: string)
    requires Digitwise(58, d)
  {
    seq(|d|, i requires 0 <= i < |d| => Alphabet()[d[i]])
  }

  function Indices(s: string): (d: seq<nat>) {
    seq(|s|, i requires 0 <= i < |s| => IndexIn(Alphabet(), s[i]))
  }

  lemma AlphabetPlain(c: char)
    requires c in Alphabet()
    ensures !IsSpace(c) && c != '\0'
  {
  }

  lemma IndicesOfChars(d: seq<nat>)
    requires Digitwise(58, d)
    ensures InAlphabet(Chars(d)) && Indices(Chars(d)) == d
  {
    forall i | 0 <= i < |d| ensures Indices(Chars(d))[i] == d[i] {
      var k := IndexIn(Alphabet(), Alphabet()[d[i]]);
      assert Alphabet()[k] == Alphabet()[d[i]];
    }
  }

  lemma CharsOfIndices(w: string)
    requires InAlphabet(w)
    ensures Digitwise(58, Indices(w)) && Chars(Indices(w)) == w
  {
    forall i | 0 <= i < |w| ensures Indices(w)[i] < 58 && Alphabet()[Indices(w)[i]] == w[i] {
      assert w[i] in Alphabet();
    }
  }

  // ----- the codec

  /** The text of a byte vector. */
  function Encode(v: seq<nat>): string { Chars(Convert(256, 58, v)) }

  /** What a C string holds: everything before the first NUL. */
  function CString(s: string): string { s[..IndexIn(s, '\0')] }

  /** The length of the leading run of spaces. */
  function Spaces(s: string): (n: nat)
    ensures n <= |s| && (forall i | 0 <= i < n :: IsSpace(s[i])) && (n < |s| ==> !IsSpace(s[n]))
  {
    if s == [] || !IsSpace(s[0]) then 0 else 1 + Spaces(s[1..])
  }

  /** The length of the leading run of anything else. */
  function Word(s: string): (n: nat)
    ensures n <= |s| && (forall i | 0 <= i < n :: !IsSpace(s[i])) && (n < |s| ==> IsSpace(s[n]))
  {
    if s == [] || IsSpace(s[0]) then 0 else 1 + Word(s[1..])
  }

  /** One word of the alphabet, with spaces around it, is accepted. */
  function Decode(s: string): Option<seq<nat>> {
    var t := CString(s);
    var u := t[Spaces(t)..];
    var k := Word(u);
    if InAlphabet(u[..k]) && AllSpaces(u[k..]) then Some(Convert(58, 256, Indices(u[..k]))) else None
  }

  ghost predicate Padded(t: string, w: string) {
    exists a, b :: AllSpaces(a) && AllSpaces(b) && t == a + w + b
  }

  lemma SpacesIs(t: string, n: nat)
    requires n <= |t| && (forall i | 0 <= i < n :: IsSpace(t[i])) && (n < |t| ==> !IsSpace(t[n]))
    ensures Spaces(t) == n
  {
    hide IsSpace;
  }

  lemma WordIs(t: string, n: nat)
    requires n <= |t| && (forall i | 0 <= i < n :: !IsSpace(t[i])) && (n < |t| ==> IsSpace(t[n]))
    ensures Word(t) == n
  {
    hide IsSpace;
  }

  lemma ParseStart(a: string, w: string, b: string)
    requires AllSpaces(a) && NoSpaces(w) && AllSpaces(b) && w != []
    ensures Spaces(a + w + b) == |a|
  {
    hide IsSpace;
    SpacesIs(a + w + b, |a|);
  }

  lemma ParseEnd(w: string, b: string)
    requires NoSpaces(w) && AllSpaces(b)
    ensures Word(w + b) == |w|
  {
    hide IsSpace;
    WordIs(w + b, |w|);
  }

  /** Skipping the spaces and cutting at the next one finds the padded word. */
  lemma ParsePadded(a: string, w: string, b: string)
    requires AllSpaces(a) && NoSpaces(w) && AllSpaces(b)
    ensures var t := a + w + b; var u := t[Spaces(t)..];
            u[..Word(u)] == w && AllSpaces(u[Word(u)..])
  {
    hide IsSpace;
    var t := a + w + b;
    if w == [] {
      assert t == a + b;
      SpacesIs(t, |t|);
    } else {
      ParseStart(a, w, b);
      ParseEnd(w, b);
      assert t[|a|..] == w + b;
      assert (w + b)[..|w|] == w && (w + b)[|w|..] == b;
    }
  }

  lemma DecodedIsPadded(s: string, v: seq<nat>)
    requires Decode(s) == Some(v)
    ensures Padded(CString(s), Encode(v))
  {
    hide Convert, Indices, Chars, CString, IsSpace, Alphabet;
    var t := CString(s);
    var u := t[Spaces(t)..];
    var w := u[..Word(u)];
    CharsOfIndices(w);
    ConvertBack(58, 256, Indices(w));
    assert Encode(v) == w;
    var a, b := t[..Spaces(t)], u[Word(u)..];
    assert AllSpaces(a) && AllSpaces(b) && t == a + w + b;
  }

  lemma PaddedDecodes(s: string, v: seq<nat>)
    requires Digitwise(256, v) && Padded(CString(s), Encode(v))
    ensures Decode(s) == Some(v)
  {
    hide Convert, Indices, Chars, CString, IsSpace, Alphabet;
    var a, b :| AllSpaces(a) && AllSpaces(b) && CString(s) == a + Encode(v) + b;
    IndicesOfChars(Convert(256, 58, v));
    EncodePlain(v);
    ParsePadded(a, Encode(v), b);
    ConvertBack(256, 58, v);
  }

  /** A text decodes to some bytes exactly when it is their encoding with spaces around it. */
  lemma DecodeExactly(s: string, v: seq<nat>)
    requires Digitwise(256, v)
    ensures Decode(s) == Some(v) <==> Padded(CString(s), Encode(v))
  {
    hide *;
    if Decode(s) == Some(v) { DecodedIsPadded(s, v); }
    if Padded(CString(s), Encode(v)) { PaddedDecodes(s, v); }
  }

  /** Spaces are the six characters of `isspace`. */
  lemma SpaceText(c: char)
    ensures IsSpace(c) <==> c in [' ', '\t', '\n', '\U{B}', '\U{C}', '\r']
  {
    assert '\t' as int == 9 && '\r' as int == 13;
  }

  /** Decoding stops at the first NUL and ignores what follows it; without one it takes the whole text. */
  lemma NulEnds(s: string, rest: string)
    ensures Decode(s + "\0" + rest) == Decode(s)
    ensures '\0' !in s ==> CString(s) == s
  {
    var t := s + "\0" + rest;
    var k := IndexIn(s, '\0');
    assert t[|s|] == '\0' && forall i | 0 <= i < |s| :: t[i] == s[i];
    assert IndexIn(t, '\0') == k by {
      assert t[k] == '\0' && forall i | 0 <= i < k :: t[i] != '\0';
    }
    assert CString(t) == CString(s);
  }

  lemma EncodePlain(v: seq<nat>)
    ensures InAlphabet(Encode(v)) && NoSpaces(Encode(v)) && CString(Encode(v)) == Encode(v)
  {
    var e := Encode(v);
    IndicesOfChars(Convert(256, 58, v));
    forall i | 0 <= i < |e| ensures !IsSpace(e[i]) && e[i] != '\0' { AlphabetPlain(e[i]); }
  }

  lemma PadNothing(w: string)
    ensures Padded(w, w)
  {
    var e: string := "";
    assert AllSpaces(e) && w == e + w + e;
  }

  /** Decoding inverts encoding. */
  lemma RoundTrip(v: seq<nat>)
    requires Digitwise(256, v)
    ensures Decode(Encode(v)) == Some(v)
  {
    hide Encode, Decode, CString;
    EncodePlain(v);
    PadNothing(Encode(v));
    DecodeExactly(Encode(v), v);
  }

  lemma DecodedBytes(s: string)
    requires Decode(s).Some?
    ensures Digitwise(256, Decode(s).value)
  {
  }

  lemma SpaceAround(a: string, w: string, b: string)
    requires AllSpaces(a) && AllSpaces(b) && a + b != []
    ensures !NoSpaces(a + w + b)
  {
    var t := a + w + b;
    if a != [] {
      assert t[0] == a[0];
    } else {
      assert t[|t| - 1] == b[|b| - 1];
    }
  }

  /** Encoding inverts decoding on accepted texts without spaces. */
  lemma TextRoundTrip(s: string)
    requires Decode(s).Some? && NoSpaces(s) && '\0' !in s
    ensures Encode(Decode(s).value) == s
  {
    DecodedBytes(s);
    hide Decode, Encode;
    DecodeExactly(s, Decode(s).value);
    var a, b :| AllSpaces(a) && AllSpaces(b) && s == a + Encode(Decode(s).value) + b;
    if a + b != [] { SpaceAround(a, Encode(Decode(s).value), b); }
  }

  // ----- with a checksum

  type Hash = seq<nat> -> seq<nat>

  ghost predicate HashOk(hash: Hash) {
    forall v :: |hash(v)| == 32 && Digitwise(256, hash(v))
  }

  function EncodeCheck(hash: Hash, v: seq<nat>): string
    requires |hash(v)| == 32
  {
    Encode(v + hash(v)[..4])
  }

  function DecodeCheck(hash: Hash, s: string): Option<seq<nat>>
    requires forall v :: |hash(v)| == 32
  {
    var d := Decode(s);
    if d.None? || |d.value| < 4 then None else
      var n := |d.value| - 4;
      if hash(d.value[..n])[..4] == d.value[n..] then Some(d.value[..n]) else None
  }

  /** With a checksum, too, only padded encodings decode, and to what was encoded. */
  lemma CheckExactly(hash: Hash, s: string, v: seq<nat>)
    requires HashOk(hash) && Digitwise(256, v)
    ensures DecodeCheck(hash, s) == Some(v) <==> Padded(CString(s), EncodeCheck(hash, v))
  {
    hide Decode, Encode, Padded;
    var whole := v + hash(v)[..4];
    DecodeExactly(s, whole);
    assert whole[..|v|] == v && whole[|v|..] == hash(v)[..4];
    var d := Decode(s);
    if DecodeCheck(hash, s) == Some(v) {
      assert d.value == d.value[..|d.value| - 4] + d.value[|d.value| - 4..];
    }
  }

  lemma CheckRoundTrip(hash: Hash, v: seq<nat>)
    requires HashOk(hash) && Digitwise(256, v)
    ensures DecodeCheck(hash, EncodeCheck(hash, v)) == Some(v)
  {
    var e := EncodeCheck(hash, v);
    EncodePlain(v + hash(v)[..4]);
    hide Encode, CString;
    PadNothing(e);
    CheckExactly(hash, e, v);
  }
}
