/** Base58 text (src/base58.cpp): conversion in place, in buffers sized by a fixed ratio. */
module Base58 {
  import opened ArithSpec
  import opened Wrappers
  import opened Base58Spec

  lemma CarryStep(base: nat, mult: nat, ch: nat, x: nat, w: nat, carry: nat, lo: nat, lo': nat, q: nat, r: nat)
    requires lo * mult + ch == lo' + carry * w && carry + mult * x == q * base + r
    ensures (x * w + lo) * mult + ch == (r * w + lo') + q * (base * w)
  {
    Distrib(x * w, lo, mult);
    assert x * w * mult == mult * x * w by { Assoc(mult, x, w); }
    Distrib(carry, mult * x, w);
    Distrib(q * base, r, w);
    Assoc(q, base, w);
  }

  lemma NoCarryOut(total: nat, number: nat, carry: nat, w: nat)
    requires total == number + carry * w && total < w
    ensures carry == 0
  {
    MulMono(if carry > 0 then 1 else 0, carry, w);
  }

  lemma SuffixStep(base: nat, d: seq<nat>, k: nat)
    requires k < |d|
    ensures Number(base, d[k..]) == d[k] * Pow(base, |d| - 1 - k) + Number(base, d[k + 1..])
  {
    assert d[k..] == [d[k]] + d[k + 1..];
    NumberHead(base, d[k], d[k + 1..]);
  }

  lemma QuotRem(n: nat, d: nat)
    requires d > 0
    ensures n == n / d * d + n % d && 0 <= n / d && 0 <= n % d < d
  {
  }

  /** One digit of the carry loop: `total` at this place is `q * base + r`. */
  lemma CarryInvariant(base: nat, mult: nat, ch: nat, before: seq<nat>, b: seq<nat>, i: nat, carry: nat, q: nat, r: nat)
    requires i < |b| == |before| && base > 0
    requires forall j | 0 <= j < |b| - i :: b[j] == before[j]
    requires Number(base, before[|b| - i..]) * mult + ch == Number(base, b[|b| - i..]) + carry * Pow(base, i)
    requires carry + mult * b[|b| - 1 - i] == q * base + r
    ensures var k := |b| - 1 - i; var b' := b[k := r];
            Number(base, before[k..]) * mult + ch == Number(base, b'[k..]) + q * Pow(base, i + 1)
  {
    var k := |b| - 1 - i;
    var b' := b[k := r];
    SuffixStep(base, before, k);
    SuffixStep(base, b', k);
    assert b'[k + 1..] == b[k + 1..];
    hide Number;
    CarryStep(base, mult, ch, before[k], Pow(base, i), carry, Number(base, before[k + 1..]), Number(base, b[k + 1..]), q, r);
  }

  /** "b = b * mult + ch" on the digits of a buffer of which only the last `length` are in use. */
  method MulAdd(b: array<nat>, base: nat, mult: nat, ch: nat, length: nat) returns (i: nat)
    requires base > 1 && Digitwise(base, b[..]) && length <= b.Length
    requires forall j | 0 <= j < b.Length - length :: b[j] == 0
    requires Number(base, b[..]) * mult + ch < Pow(base, b.Length)
    modifies b
    ensures Digitwise(base, b[..]) && i <= b.Length
    ensures forall j | 0 <= j < b.Length - i :: b[j] == 0
    ensures Number(base, b[..]) == old(Number(base, b[..])) * mult + ch
  {
    hide Number, Pow;
    ghost var before := b[..];
    ghost var n := b.Length;
    var carry: nat := ch;
    i := 0;
    CarryStart(base, before, b[..], mult, ch);
    while (carry != 0 || i < length) && i < b.Length
      invariant i <= b.Length && Digitwise(base, b[..])
      invariant forall j | 0 <= j < n - i :: b[j] == before[j]
      invariant Number(base, before[n - i..]) * mult + ch == Number(base, b[..][n - i..]) + carry * Pow(base, i)
    {
      var k := b.Length - 1 - i;
      carry := carry + mult * b[k];
      QuotRem(carry, base);
      CarryInvariant(base, mult, ch, before, b[..], i, carry - mult * b[k], carry / base, carry % base);
      ghost var s := b[..];
      var digit: nat := carry % base;
      b[k] := digit;
      assert b[..] == s[k := digit];
      carry := carry / base;
      i := i + 1;
    }
    CarryEnd(base, mult, ch, before, b[..], i, length, carry);
    assert carry == 0;
  }

  lemma CarryStart(base: nat, before: seq<nat>, b: seq<nat>, mult: nat, ch: nat)
    requires b == before
    ensures Number(base, before[|b|..]) * mult + ch == Number(base, b[|b|..]) + ch * Pow(base, 0)
  {
    assert b[|b|..] == [];
  }

  /** The loop ends without a carry, and what it did not touch was zero. */
  lemma CarryEnd(base: nat, mult: nat, ch: nat, before: seq<nat>, b: seq<nat>, i: nat, length: nat, carry: nat)
    requires |b| == |before| && i <= |b| && length <= |b|
    requires forall j | 0 <= j < |b| - i :: b[j] == before[j]
    requires forall j | 0 <= j < |b| - length :: before[j] == 0
    requires Number(base, before[|b| - i..]) * mult + ch == Number(base, b[|b| - i..]) + carry * Pow(base, i)
    requires Number(base, before) * mult + ch < Pow(base, |b|)
    requires i == |b| || (carry == 0 && length <= i)
    ensures carry == 0 && Number(base, b) == Number(base, before) * mult + ch
    ensures forall j | 0 <= j < |b| - i :: b[j] == 0
  {
    hide Number, Pow;
    if i == |b| {
      assert before[0..] == before && b[0..] == b;
      NoCarryOut(Number(base, before) * mult + ch, Number(base, b), carry, Pow(base, i));
    } else {
      DropZeros(base, before, |b| - i);
      DropZeros(base, b, |b| - i);
    }
  }

  /** Where the significant digits of the buffer begin. */
  method SkipZeros(b: array<nat>, base: nat, length: nat) returns (it: nat)
    requires base > 1 && Digitwise(base, b[..]) && length <= b.Length
    requires forall j | 0 <= j < b.Length - length :: b[j] == 0
    ensures it <= b.Length && b[it..] == Digits(base, Number(base, b[..]))
  {
    it := b.Length - length;
    while it != b.Length && b[it] == 0
      invariant it <= b.Length && forall j | 0 <= j < it :: b[j] == 0
    {
      it := it + 1;
    }
    DropZeros(base, b[..], it);
    assert b[..][it..] == b[it..];
    DigitsUnique(base, b[it..]);
  }

  // ----- encoding

  /** Appending a digit within the room that was planned for keeps the number below the bound. */
  lemma Fits(from: nat, to: nat, d: seq<nat>, k: nat, n: nat, size: nat)
    requires from > 0 && Digitwise(from, d) && k < |d| <= n && Pow(from, n) <= Pow(to, size)
    ensures Number(from, d[..k]) * from + d[k] == Number(from, d[..k + 1]) < Pow(to, size)
  {
    assert d[..k + 1][..k] == d[..k];
    NumberBound(from, d[..k + 1]);
    hide Number, Pow;
    PowExpMono(from, k + 1, n);
  }

  lemma EncodeParts(v: seq<nat>, z: nat)
    requires z == Zeros(v)
    ensures var tail := Digits(58, Number(256, v[z..])); Digitwise(58, tail) && Encode(v) == Repeat('1', z) + Chars(tail)
  {
    DropZeros(256, v, z);
    DigitsOk(58, Number(256, v));
    CharsAfterZeros(z, Digits(58, Number(256, v)));
  }

  lemma CharsAfterZeros(z: nat, d: seq<nat>)
    requires Digitwise(58, d)
    ensures Digitwise(58, Repeat(0, z) + d) && Chars(Repeat(0, z) + d) == Repeat('1', z) + Chars(d)
  {
    var c: seq<nat> := Repeat(0, z) + d;
    var l, r := Chars(c), Repeat('1', z) + Chars(d);
    assert |l| == |c| == |r|;
    forall i | 0 <= i < |c| ensures l[i] == r[i] {
      assert c[i] == if i < z then 0 else d[i - z];
      assert l[i] == Alphabet()[c[i]];
      assert r[i] == if i < z then '1' else Chars(d)[i - z];
    }
  }

  lemma NumberOfZeros(base: nat, d: seq<nat>)
    requires forall i | 0 <= i < |d| :: d[i] == 0
    ensures Number(base, d) == 0
  {
    DropZeros(base, d, |d|);
    assert d[|d|..] == [];
  }

  method EncodeBase58(v: seq<nat>) returns (str: string)
    requires Digitwise(256, v)
    ensures str == Encode(v)
  {
    hide Number, Digits, Pow, Encode, Chars, Alphabet;
    var zeroes := 0;
    while zeroes != |v| && v[zeroes] == 0
      invariant zeroes <= |v| && forall i | 0 <= i < zeroes :: v[i] == 0
    {
      zeroes := zeroes + 1;
    }
    ZerosIs(v, zeroes);
    var rest := v[zeroes..];
    var size := |rest| * 138 / 100 + 1;
    var b58 := new nat[size](_ => 0);
    EncodeRoom(|rest|);
    NumberOfZeros(58, b58[..]);
    NumberOfZeros(256, rest[..0]);
    var length: nat := 0;
    var p := 0;
    while p != |rest|
      invariant p <= |rest| && Digitwise(58, b58[..]) && length <= b58.Length
      invariant forall j | 0 <= j < b58.Length - length :: b58[j] == 0
      invariant Number(58, b58[..]) == Number(256, rest[..p])
    {
      Fits(256, 58, rest, p, |rest|, size);
      length := MulAdd(b58, 58, 256, rest[p], length);
      p := p + 1;
    }
    assert rest[..p] == rest;
    var it := SkipZeros(b58, 58, length);
    var digits := Translate(b58, it);
    EncodeParts(v, zeroes);
    str := Repeat('1', zeroes) + digits;
  }

  /** The digits from a place in the buffer on, as characters. */
  method Translate(b58: array<nat>, it: nat) returns (str: string)
    requires Digitwise(58, b58[..]) && it <= b58.Length
    ensures Digitwise(58, b58[it..]) && str == Chars(b58[it..])
  {
    hide Alphabet;
    str := "";
    for i := it to b58.Length
      invariant str == Chars(b58[it..i])
    {
      str := str + [Alphabet()[b58[i]]];
    }
    assert b58[it..b58.Length] == b58[it..];
  }

  // ----- decoding

  function Body(str: string): string { CString(str)[Spaces(CString(str))..] }

  lemma ForeignCharacter(str: string, j: nat)
    requires j < |Body(str)| && NoSpaces(Body(str)[..j + 1]) && Body(str)[j] !in Alphabet()
    ensures Decode(str) == None
  {
    hide IsSpace, Alphabet, CString;
    var u := Body(str);
    var k := Word(u);
    assert forall i | 0 <= i <= j :: u[i] == u[..j + 1][i];
    assert k > j;
    assert u[..k][j] == u[j];
  }

  lemma SecondWord(str: string, j: nat)
    requires Word(Body(str)) <= j < |Body(str)| && !IsSpace(Body(str)[j])
    ensures Decode(str) == None
  {
    var u := Body(str);
    var k := Word(u);
    assert u[k..][j - k] == u[j];
  }

  lemma DecodeParts(str: string, z: nat, k: nat)
    requires Word(Body(str)) == k && InAlphabet(Body(str)[..k]) && AllSpaces(Body(str)[k..])
    requires z <= k && Zeros(Indices(Body(str)[..k])) == z
    ensures Decode(str) == Some(Repeat(0, z) + Digits(256, Number(58, Indices(Body(str)[z..k]))))
  {
    hide IsSpace, Alphabet, CString, Number, Digits;
    var u := Body(str);
    DropZeros(58, Indices(u[..k]), z);
    assert Indices(u[..k])[z..] == Indices(u[z..k]);
  }

  lemma OnesAreZeros(w: string, z: nat)
    requires z <= |w| && (forall i | 0 <= i < z :: w[i] == '1') && (z < |w| ==> w[z] != '1')
    ensures Zeros(Indices(w)) == z
  {
    assert Alphabet()[0] == '1';
    ZerosIs(Indices(w), z);
  }

  lemma IndicesFits(w: string, k: nat, n: nat, size: nat)
    requires k < |w| <= n && InAlphabet(w) && Pow(58, n) <= Pow(256, size)
    ensures Number(58, Indices(w[..k])) * 58 + IndexIn(Alphabet(), w[k]) == Number(58, Indices(w[..k + 1])) < Pow(256, size)
  {
    CharsOfIndices(w);
    assert Indices(w)[..k] == Indices(w[..k]);
    assert Indices(w)[..k + 1] == Indices(w[..k + 1]);
    hide Number, Pow;
    Fits(58, 256, Indices(w), k, n, size);
  }

  /** Reads digits up to the next space into the buffer, unless some character is not one. */
  method ReadWord(s: string, b256: array<nat>) returns (ok: bool, p: nat, length: nat)
    requires Pow(58, |s|) <= Pow(256, b256.Length) && forall i | 0 <= i < b256.Length :: b256[i] == 0
    modifies b256
    ensures p <= |s| && NoSpaces(s[..p]) && InAlphabet(s[..p])
    ensures !ok ==> p < |s| && !IsSpace(s[p]) && s[p] !in Alphabet()
    ensures ok ==> p == Word(s) && length <= b256.Length && Digitwise(256, b256[..])
    ensures ok ==> forall j | 0 <= j < b256.Length - length :: b256[j] == 0
    ensures ok ==> Number(256, b256[..]) == Number(58, Indices(s[..p]))
  {
    hide Number, Pow, Indices, Alphabet, IsSpace;
    ok, p, length := true, 0, 0;
    NumberOfZeros(256, b256[..]);
    NoIndices();
    while p < |s| && !IsSpace(s[p])
      invariant p <= |s| && length <= b256.Length && Digitwise(256, b256[..])
      invariant NoSpaces(s[..p]) && InAlphabet(s[..p])
      invariant forall j | 0 <= j < b256.Length - length :: b256[j] == 0
      invariant Number(256, b256[..]) == Number(58, Indices(s[..p]))
    {
      var ch := IndexIn(Alphabet(), s[p]);
      if ch == |Alphabet()| {
        return false, p, length;
      }
      assert s[p] in Alphabet();
      assert s[..p + 1] == s[..p] + [s[p]];
      IndicesFits(s[..p + 1], p, |s|, b256.Length);
      assert s[..p + 1][..p] == s[..p] && s[..p + 1][..p + 1] == s[..p + 1];
      length := MulAdd(b256, 256, 58, ch, length);
      p := p + 1;
    }
    WordIs(s, p);
  }

  lemma NoIndices()
    ensures Number(58, Indices("")) == 0
  {
  }

  method SkipSpaces(s: string, from: nat) returns (p: nat)
    requires from <= |s|
    ensures from <= p <= |s| && (forall i | from <= i < p :: IsSpace(s[i])) && (p < |s| ==> !IsSpace(s[p]))
  {
    p := from;
    while p < |s| && IsSpace(s[p])
      invariant from <= p <= |s| && forall i | from <= i < p :: IsSpace(s[i])
    {
      p := p + 1;
    }
  }

  method CountOnes(u: string) returns (z: nat)
    ensures z <= |u| && (forall i | 0 <= i < z :: u[i] == '1') && (z < |u| ==> u[z] != '1')
  {
    z := 0;
    while z < |u| && u[z] == '1'
      invariant z <= |u| && forall i | 0 <= i < z :: u[i] == '1'
    {
      z := z + 1;
    }
  }

  method DecodeBase58(str: string) returns (r: Option<seq<nat>>)
    ensures r == Decode(str)
  {
    hide Number, Pow, Indices, Alphabet, IsSpace, Decode, CString, Digits, Word, Spaces, Body;
    var s := CString(str);
    var p := SkipSpaces(s, 0);
    SpacesIs(s, p);
    var u := s[p..];
    BodyIs(str);
    var zeroes := CountOnes(u);
    var w := u[zeroes..];
    var b256 := new nat[|w| * 733 / 1000 + 1](_ => 0);
    DecodeRoom(|w|);
    var ok, k, length := ReadWord(w, b256);
    if !ok {
      ForeignAfterOnes(str, zeroes, k);
      return None;
    }
    WordAfterOnes(u, zeroes, k);
    var q := SkipSpaces(w, k);
    if q != |w| {
      SecondWord(str, zeroes + q);
      return None;
    }
    var it := SkipZeros(b256, 256, length);
    TailSpaces(w, k);
    AcceptAfterOnes(str, u, zeroes, k);
    return Some(Repeat(0, zeroes) + b256[it..]);
  }

  lemma BodyIs(str: string)
    ensures Body(str) == CString(str)[Spaces(CString(str))..]
  {
  }

  lemma OnePlain()
    ensures '1' in Alphabet() && !IsSpace('1')
  {
    assert Alphabet()[0] == '1';
  }

  lemma ForeignAfterOnes(str: string, z: nat, k: nat)
    requires z + k < |Body(str)| && (forall i | 0 <= i < z :: Body(str)[i] == '1')
    requires NoSpaces(Body(str)[z..][..k]) && !IsSpace(Body(str)[z..][k]) && Body(str)[z..][k] !in Alphabet()
    ensures Decode(str) == None
  {
    hide Alphabet, IsSpace, CString, Decode;
    OnePlain();
    var u := Body(str);
    var x := u[..z + k + 1];
    forall i | 0 <= i < |x| ensures !IsSpace(x[i]) {
      assert z <= i < z + k ==> u[i] == u[z..][..k][i - z];
    }
    ForeignCharacter(str, z + k);
  }

  lemma WordAfterOnes(u: string, z: nat, k: nat)
    requires z + k <= |u| && (forall i | 0 <= i < z :: u[i] == '1') && Word(u[z..]) == k
    ensures Word(u) == z + k
  {
    hide Alphabet, IsSpace;
    OnePlain();
    assert u == u[..z] + u[z..];
    assert forall i | 0 <= i < k :: u[z + i] == u[z..][i];
    WordIs(u, z + k);
  }

  lemma AfterOnes(ones: string, w: string)
    requires InAlphabet(w) && forall i | 0 <= i < |ones| :: ones[i] == '1'
    ensures InAlphabet(ones + w)
  {
    hide Alphabet;
    OnePlain();
  }

  lemma TailSpaces(w: string, k: nat)
    requires k <= |w| && forall i | k <= i < |w| :: IsSpace(w[i])
    ensures AllSpaces(w[k..])
  {
    hide IsSpace;
  }

  lemma AcceptAfterOnes(str: string, u: string, z: nat, k: nat)
    requires u == Body(str) && z + k <= |u| && (forall i | 0 <= i < z :: u[i] == '1') && (z < |u| ==> u[z] != '1')
    requires Word(u) == z + k && InAlphabet(u[z..][..k]) && AllSpaces(u[z..][k..])
    ensures Decode(str) == Some(Repeat(0, z) + Digits(256, Number(58, Indices(u[z..][..k]))))
  {
    hide Alphabet, IsSpace, CString, Decode, Number, Digits, Indices, Body, Word, Spaces;
    var w := u[..z + k];
    OnesAreZeros(w, z);
    assert w == u[..z] + u[z..][..k];
    AfterOnes(u[..z], u[z..][..k]);
    assert u[z + k..] == u[z..][k..];
    DecodeParts(str, z, z + k);
    assert u[z..][..k] == u[z..z + k];
  }

  // ----- checksums

  method EncodeBase58Check(hash: Hash, v: seq<nat>) returns (str: string)
    requires HashOk(hash) && Digitwise(256, v)
    ensures str == EncodeCheck(hash, v)
  {
    str := EncodeBase58(v + hash(v)[..4]);
  }

  method DecodeBase58Check(hash: Hash, str: string) returns (r: Option<seq<nat>>)
    requires HashOk(hash)
    ensures r == DecodeCheck(hash, str)
  {
    hide Decode;
    var d := DecodeBase58(str);
    if d.None? || |d.value| < 4 {
      return None;
    }
    var n := |d.value| - 4;
    if hash(d.value[..n])[..4] != d.value[n..] {
      return None;
    }
    return Some(d.value[..n]);
  }
}
