/**
 Base58 strings (base58.cpp).  Byte strings and Base58 strings correspond one to one: leading zero bytes to leading
 '1's, and the rest by value.  The conversion buffers are always large enough.
 */
module Base58 {
  import opened Arith
  import opened Radix

  // ---------- Characters ----------

  /** The digit of a character, -1 for a character that is not used. */
  function Map58(c: char): (d: int)
    ensures -1 <= d < 58
  {
    if '1' <= c <= '9' then c as int - '1' as int
    else if 'A' <= c <= 'H' then c as int - 'A' as int + 9
    else if 'J' <= c <= 'N' then c as int - 'J' as int + 17
    else if 'P' <= c <= 'Z' then c as int - 'P' as int + 22
    else if 'a' <= c <= 'k' then c as int - 'a' as int + 33
    else if 'm' <= c <= 'z' then c as int - 'm' as int + 44
    else -1
  }

  function Char58(d: nat): (c: char)
    requires d < 58
    ensures Map58(c) == d
  {
    if d < 9 then (d + '1' as int) as char
    else if d < 17 then (d - 9 + 'A' as int) as char
    else if d < 22 then (d - 17 + 'J' as int) as char
    else if d < 33 then (d - 22 + 'P' as int) as char
    else if d < 44 then (d - 33 + 'a' as int) as char
    else (d - 44 + 'm' as int) as char
  }

  lemma CharUnique(c: char)
    requires Map58(c) >= 0
    ensures Map58(c) < 58 && Char58(Map58(c)) == c
  {}

  predicate IsSpace(c: char) {
    c == ' ' || c == 12 as char || c == '\n' || c == '\r' || c == '\t' || c == 11 as char
  }

  predicate Valid58(s: string) {
    forall i :: 0 <= i < |s| ==> Map58(s[i]) >= 0
  }

  function Digits58(s: string): (ds: seq<nat>)
    requires Valid58(s)
    ensures |ds| == |s| && forall i :: 0 <= i < |s| ==> ds[i] == Map58(s[i])
  {
    seq(|s|, i requires 0 <= i < |s| => Map58(s[i]))
  }

  /** How many times `d` leads `s`. */
  function Lead<T(==)>(s: seq<T>, d: T): (z: nat)
    ensures z <= |s| && (forall i :: 0 <= i < z ==> s[i] == d) && (z < |s| ==> s[z] != d)
  {
    if s != [] && s[0] == d then 1 + Lead(s[1..], d) else 0
  }

  lemma LeadIs<T>(s: seq<T>, d: T, z: nat)
    requires z <= |s| && (forall i :: 0 <= i < z ==> s[i] == d) && (z < |s| ==> s[z] != d)
    ensures Lead(s, d) == z
  {}

  // ---------- The correspondence ----------

  /** `s` is the Base58 form of the bytes `x`. */
  ghost predicate Matches(x: seq<nat>, s: string) {
    && Digits(256, x) && Valid58(s) && Lead(x, 0) == Lead(s, '1')
    && Num(256, x[Lead(x, 0)..]) == Num(58, Digits58(s[Lead(s, '1')..]))
  }

  lemma DigitsProper(s: string)
    requires Valid58(s)
    ensures var t := s[Lead(s, '1')..]; Digits(58, Digits58(t)) && Proper(Digits58(t))
  {
    var t := s[Lead(s, '1')..];
    forall i | 0 <= i < |t| ensures Digits58(t)[i] < 58 { CharUnique(t[i]); }
    if t != [] { CharUnique(t[0]); }
  }

  /** Bytes have one Base58 form. */
  lemma OneText(x: seq<nat>, s: string, t: string)
    requires Matches(x, s) && Matches(x, t)
    ensures s == t
  {
    hide Num, Map58;
    var z := Lead(x, 0);
    DigitsProper(s);
    DigitsProper(t);
    NumUnique(58, Digits58(s[z..]), Digits58(t[z..]));
    assert |s[z..]| == |t[z..]|;
    forall i | 0 <= i < |s| ensures s[i] == t[i] {
      if i >= z {
        assert Digits58(s[z..])[i - z] == Map58(s[i]) && Digits58(t[z..])[i - z] == Map58(t[i]);
        CharUnique(s[i]);
        CharUnique(t[i]);
      }
    }
  }

  /** A Base58 string stands for one byte string. */
  lemma OneMeaning(x: seq<nat>, y: seq<nat>, s: string)
    requires Matches(x, s) && Matches(y, s)
    ensures x == y
  {
    hide Num, Map58;
    var z := Lead(s, '1');
    NumUnique(256, x[z..], y[z..]);
    assert x == x[..z] + x[z..] && y == y[..z] + y[z..];
    assert x[..z] == y[..z];
  }

  // ---------- Encoding ----------

  method EncodeBase58(input: seq<nat>) returns (r: string)
    requires Digits(256, input)
    ensures Matches(input, r)
  {
    hide Num, Map58, Char58, Uses;
    var zeroes := 0;
    while zeroes < |input| && input[zeroes] == 0
      invariant 0 <= zeroes <= |input| && forall i :: 0 <= i < zeroes ==> input[i] == 0
    {
      zeroes := zeroes + 1;
    }
    LeadIs(input, 0, zeroes);
    var rest := input[zeroes..];
    var size := |rest| * 138 / 100 + 1;
    var b58 := new nat[size](_ => 0);
    var length := 0;
    StartBuffer(58, 256, b58[..], rest);
    for k := 0 to |rest|
      invariant Uses(58, b58[..], length) && Num(58, b58[..]) == Num(256, rest[..k])
    {
      EncodeRoom(rest, k);
      length := Push(b58, 58, 256, rest[k], length);
    }
    assert rest[..|rest|] == rest;
    UsesFacts(58, b58[..], length);
    var it := size - length;
    while it < size && b58[it] == 0
      invariant size - length <= it <= size && forall i :: 0 <= i < it ==> b58[i] == 0
    {
      it := it + 1;
    }
    NumSkip(58, b58[..], it);
    r := seq(zeroes, _ => '1');
    ghost var from := it;
    while it < size
      invariant from <= it <= size && |r| == zeroes + (it - from) && forall i :: 0 <= i < zeroes ==> r[i] == '1'
      invariant forall i :: zeroes <= i < |r| ==> Map58(r[i]) == b58[from + i - zeroes]
    {
      r := r + [Char58(b58[it])];
      it := it + 1;
    }
    TextIs(r, zeroes, b58[..][from..]);
  }

  lemma StartBuffer(b: nat, c: nat, s: seq<nat>, rest: seq<nat>)
    requires b >= 2 && forall i :: 0 <= i < |s| ==> s[i] == 0
    ensures Uses(b, s, 0) && Num(b, s) == 0 && Num(c, rest[..0]) == 0
  {
    NumZeros(b, s);
  }

  lemma UsesFacts(b: nat, s: seq<nat>, length: nat)
    requires Uses(b, s, length)
    ensures length <= |s| && Digits(b, s) && (forall i :: 0 <= i < |s| - length ==> s[i] == 0)
  {}

  lemma NumNext(b: nat, s: seq<nat>, k: nat)
    requires k < |s|
    ensures Num(b, s[..k + 1]) == Num(b, s[..k]) * b + s[k]
  {
    assert s[..k + 1][..k] == s[..k];
  }

  /** The buffer has room for one more byte. */
  lemma EncodeRoom(rest: seq<nat>, k: nat)
    requires Digits(256, rest) && k < |rest|
    ensures 256 * Num(256, rest[..k]) + rest[k] == Num(256, rest[..k + 1]) < Pow(58, |rest| * 138 / 100 + 1)
  {
    hide Num, Pow;
    NumNext(256, rest, k);
    NumBound(256, rest[..k + 1]);
    PowGrows(256, k + 1, |rest|);
    EncodeFits(|rest|);
  }

  lemma TextIs(r: string, z: nat, ds: seq<nat>)
    requires |r| == z + |ds| && Digits(58, ds) && Proper(ds)
    requires (forall i :: 0 <= i < z ==> r[i] == '1') && forall i :: z <= i < |r| ==> Map58(r[i]) == ds[i - z]
    ensures Valid58(r) && Lead(r, '1') == z && Digits58(r[z..]) == ds
  {
    assert Map58('1') == 0;
    LeadIs(r, '1', z);
  }

  // ---------- Surrounding spaces ----------

  function TrimLeft(s: string): string {
    if s != "" && IsSpace(s[0]) then TrimLeft(s[1..]) else s
  }

  function TrimRight(s: string): string {
    if s != "" && IsSpace(s[|s| - 1]) then TrimRight(s[..|s| - 1]) else s
  }

  function Trim(s: string): string {
    TrimRight(TrimLeft(s))
  }

  lemma {:induction false} TrimLeftKeeps(s: string, c: char)
    requires c in s && !IsSpace(c)
    ensures c in TrimLeft(s)
  {
    if s != "" && IsSpace(s[0]) { TrimLeftKeeps(s[1..], c); }
  }

  /** Trimming on the right gives a prefix, up to the last character that is not a space. */
  lemma {:induction false} TrimRightKeeps(s: string, k: nat)
    requires k < |s| && !IsSpace(s[k])
    ensures k < |TrimRight(s)| <= |s| && TrimRight(s) == s[..|TrimRight(s)|]
  {
    if IsSpace(s[|s| - 1]) { TrimRightKeeps(s[..|s| - 1], k); }
  }

  lemma {:induction false} TrimRightAt(s: string, e: nat)
    requires e <= |s| && (forall i :: e <= i < |s| ==> IsSpace(s[i])) && (e > 0 ==> !IsSpace(s[e - 1]))
    ensures TrimRight(s) == s[..e]
  {
    if e < |s| { TrimRightAt(s[..|s| - 1], e); assert s[..|s| - 1][..e] == s[..e]; } else { assert s[..e] == s; }
  }

  lemma SpaceIsNoDigit(c: char)
    ensures IsSpace(c) || c == 0 as char ==> Map58(c) == -1
  {}

  // ---------- Decoding ----------

  /** `x` is what `s` stands for, and short enough. */
  ghost predicate Decodes(s: string, x: seq<nat>, max: int) {
    Matches(x, s) && |x| <= max
  }

  /** A character that is not a digit: nothing matches. */
  lemma BadChar(s: string, i: nat, max: int)
    requires i < |s| && Map58(s[i]) < 0
    ensures forall x :: !Decodes(s, x, max)
  {}

  /** A prefix of the digits already needs too many bytes. */
  lemma TooLong(s: string, z: nat, k: nat, length: nat, max: int)
    requires z <= k <= |s| && Valid58(s[..k]) && (forall i :: 0 <= i < z ==> s[i] == '1') && z + length > max
    requires length > 0 ==> z < k && s[z] != '1' && Pow(256, length - 1) <= Num(58, Digits58(s[z..k]))
    ensures forall x :: !Decodes(s, x, max)
  {
    hide Num, Pow, Map58;
    forall x | Matches(x, s) ensures |x| > max {
      if length > 0 {
        LeadIs(s, '1', z);
        var y, ds := x[z..], Digits58(s[z..]);
        assert ds[..k - z] == Digits58(s[z..k]);
        PrefixBelow(58, ds, k - z);
        NumBound(256, y);
        if |y| < length { PowGrows(256, |y|, length - 1); }
      } else {
        LeadAtLeast(s, '1', z);
      }
    }
  }

  lemma {:induction false} LeadAtLeast<T>(s: seq<T>, d: T, z: nat)
    requires z <= |s| && forall i :: 0 <= i < z ==> s[i] == d
    ensures Lead(s, d) >= z
  {}

  lemma PrefixBelow(b: nat, s: seq<nat>, k: nat)
    requires b >= 1 && k <= |s|
    ensures Num(b, s[..k]) <= Num(b, s)
  {
    hide Num;
    NumSplit(b, s, k);
    PowPositive(b, |s| - k);
    MulLe(1, Pow(b, |s| - k), Num(b, s[..k]));
  }

  /** The main loop of decoding: digits up to the first space, in a buffer of bytes. */
  method ReadDigits(t: string, zeroes: nat, max: int) returns (ok: bool, p: nat, b256: array<nat>, length: nat)
    requires zeroes <= |t| && (forall i :: 0 <= i < zeroes ==> t[i] == '1') && (zeroes < |t| ==> t[zeroes] != '1')
    ensures fresh(b256) && zeroes <= p <= |t|
    ensures !ok ==> forall x :: !Decodes(TrimRight(t), x, max)
    ensures ok ==> Uses(256, b256[..], length) && (p < |t| ==> IsSpace(t[p])) && (length == 0 || zeroes + length <= max)
    ensures ok ==> (forall i :: zeroes <= i < p ==> !IsSpace(t[i])) && Valid58(t[zeroes..p])
    ensures ok ==> Num(256, b256[..]) == Num(58, Digits58(t[zeroes..p]))
  {
    hide Num, Map58, Uses, Pow, IsSpace, TrimRight, Decodes;
    var rest := t[zeroes..];
    var size := |rest| * 733 / 1000 + 1;
    b256 := new nat[size](_ => 0);
    length := 0;
    StartBuffer(256, 58, b256[..], []);
    NoDigits(t, zeroes);
    p := zeroes;
    while p < |t| && !IsSpace(t[p])
      invariant zeroes <= p <= |t| && (forall i :: zeroes <= i < p ==> !IsSpace(t[i])) && Valid58(t[zeroes..p])
      invariant Uses(256, b256[..], length) && Num(256, b256[..]) == Num(58, Digits58(t[zeroes..p]))
      invariant length == 0 || zeroes + length <= max
    {
      var carry := Map58(t[p]);
      TrimRightKeeps(t, p);
      if carry == -1 {
        BadChar(TrimRight(t), p, max);
        return false, p, b256, length;
      }
      DecodeRoom(t, zeroes, p, size);
      length := Push(b256, 256, 58, carry, length);
      if length + zeroes > max {
        Overlong(t, zeroes, p + 1, b256[..], length, max);
        return false, p, b256, length;
      }
      p := p + 1;
    }
    ok := true;
  }

  lemma NoDigits(t: string, z: nat)
    requires z <= |t|
    ensures t[z..z] == "" && Num(58, Digits58(t[z..z])) == 0
  {}

  /** The buffer has room for one more digit. */
  lemma DecodeRoom(t: string, z: nat, p: nat, size: nat)
    requires z <= p < |t| && Valid58(t[z..p]) && Map58(t[p]) >= 0 && size == (|t| - z) * 733 / 1000 + 1
    ensures Valid58(t[z..p + 1])
    ensures 58 * Num(58, Digits58(t[z..p])) + Map58(t[p]) == Num(58, Digits58(t[z..p + 1])) < Pow(256, size)
  {
    hide Num, Pow, Map58;
    var k := p - z;
    assert t[z..p + 1] == t[z..p] + [t[p]];
    var ds := Digits58(t[z..p + 1]);
    assert ds[..k] == Digits58(t[z..p]) && ds[..k + 1] == ds;
    NumNext(58, ds, k);
    forall i | 0 <= i < |ds| ensures ds[i] < 58 { CharUnique(t[z..p + 1][i]); }
    NumBound(58, ds);
    PowGrows(58, k + 1, |t| - z);
    DecodeFits(|t| - z);
  }

  lemma Overlong(t: string, z: nat, k: nat, buf: seq<nat>, length: nat, max: int)
    requires z < k <= |t| && (forall i :: 0 <= i < z ==> t[i] == '1')
    requires t[z] != '1' && Valid58(t[z..k]) && !IsSpace(t[k - 1])
    requires Uses(256, buf, length) && Num(256, buf) == Num(58, Digits58(t[z..k])) && z + length > max
    ensures forall x :: !Decodes(TrimRight(t), x, max)
  {
    hide Num, Pow, IsSpace, Decodes;
    TrimRightKeeps(t, k - 1);
    var s := TrimRight(t);
    assert s[z..k] == t[z..k];
    forall i | 0 <= i < k ensures Map58(s[i]) >= 0 {
      if i < z { assert Map58('1') == 0; } else { assert s[i] == t[z..k][i - z]; }
    }
    if length > 0 {
      var j := |buf| - length;
      NumSkip(256, buf, j);
      ProperSize(256, buf[j..]);
    }
    TooLong(s, z, k, length, max);
  }

  method DecodeBase58(str: string, max: nat) returns (ok: bool, vch: seq<nat>)
    ensures ok ==> Decodes(Trim(str), vch, max)
    ensures !ok ==> forall x :: !Decodes(Trim(str), x, max)
  {
    hide Num, Map58, Uses, IsSpace, TrimRight, TrimLeft, Decodes;
    vch := [];
    if 0 as char in str {
      HasNul(str, max);
      return false, vch;
    }
    var p := 0;
    NothingTrimmed(str);
    while p < |str| && IsSpace(str[p])
      invariant 0 <= p <= |str| && TrimLeft(str[p..]) == TrimLeft(str)
    {
      TrimOne(str[p..]);
      assert str[p..][1..] == str[p + 1..];
      p := p + 1;
    }
    TrimNone(str[p..]);
    var t := str[p..];
    var zeroes := 0;
    while zeroes < |t| && t[zeroes] == '1'
      invariant 0 <= zeroes <= |t| && zeroes <= max && forall i :: 0 <= i < zeroes ==> t[i] == '1'
    {
      zeroes := zeroes + 1;
      if zeroes > max {
        ManyOnes(t, zeroes, max);
        return false, vch;
      }
    }
    var q, b256, length;
    ok, q, b256, length := ReadDigits(t, zeroes, max);
    if !ok { return false, vch; }
    var e := q;
    while q < |t| && IsSpace(t[q])
      invariant e <= q <= |t| && forall i :: e <= i < q ==> IsSpace(t[i])
    {
      q := q + 1;
    }
    if q != |t| {
      InnerSpace(t, e, q, max);
      return false, vch;
    }
    Finish(t, zeroes, e, b256[..], length);
    UsesFacts(256, b256[..], length);
    vch := seq(zeroes, _ => 0) + b256[b256.Length - length..];
    assert b256[..][b256.Length - length..] == b256[b256.Length - length..];
    WithinCap(vch, TrimRight(t), max);
    return true, vch;
  }

  lemma NothingTrimmed(s: string)
    ensures s[0..] == s
  {}

  lemma TrimOne(s: string)
    requires s != "" && IsSpace(s[0])
    ensures TrimLeft(s) == TrimLeft(s[1..])
  {}

  lemma TrimNone(s: string)
    requires s == "" || !IsSpace(s[0])
    ensures TrimLeft(s) == s
  {}

  lemma WithinCap(x: seq<nat>, s: string, max: int)
    requires Matches(x, s) && |x| <= max
    ensures Decodes(s, x, max)
  {}

  lemma HasNul(s: string, max: int)
    requires 0 as char in s
    ensures forall x :: !Decodes(Trim(s), x, max)
  {
    hide Decodes, Map58;
    TrimLeftKeeps(s, 0 as char);
    var t := TrimLeft(s);
    var k :| 0 <= k < |t| && t[k] == 0 as char;
    TrimRightKeeps(t, k);
    SpaceIsNoDigit(0 as char);
    BadChar(TrimRight(t), k, max);
  }

  lemma ManyOnes(t: string, z: nat, max: int)
    requires 0 < z <= |t| && z > max && forall i :: 0 <= i < z ==> t[i] == '1'
    ensures forall x :: !Decodes(TrimRight(t), x, max)
  {
    hide Decodes, Num;
    TrimRightKeeps(t, z - 1);
    assert Map58('1') == 0;
    TooLong(TrimRight(t), z, z, 0, max);
  }

  /** A space that is not at the end. */
  lemma InnerSpace(t: string, e: nat, q: nat, max: int)
    requires e < q < |t| && IsSpace(t[e]) && !IsSpace(t[q])
    ensures forall x :: !Decodes(TrimRight(t), x, max)
  {
    hide Decodes, Map58;
    TrimRightKeeps(t, q);
    SpaceIsNoDigit(t[e]);
    BadChar(TrimRight(t), e, max);
  }

  /** The bytes in use after the leading zeros are what the text stands for. */
  lemma {:induction false} Finish(t: string, z: nat, e: nat, buf: seq<nat>, length: nat)
    requires z <= e <= |t| && (forall i :: 0 <= i < z ==> t[i] == '1') && (z < |t| ==> t[z] != '1')
    requires (forall i :: z <= i < e ==> !IsSpace(t[i])) && (forall i :: e <= i < |t| ==> IsSpace(t[i]))
    requires Valid58(t[z..e]) && Uses(256, buf, length) && Num(256, buf) == Num(58, Digits58(t[z..e]))
    ensures Matches(seq(z, _ => 0) + buf[|buf| - length..], TrimRight(t))
  {
    hide Num, Map58, TrimRight, Valid58, Digits58, Lead;
    FinishText(t, z, e);
    var s, y := t[..e], buf[|buf| - length..];
    var x := seq(z, _ => 0) + y;
    assert s[z..] == t[z..e] && x[z..] == y;
    LeadIs(x, 0, z);
    NumSkip(256, buf, |buf| - length);
  }

  lemma {:induction false} FinishText(t: string, z: nat, e: nat)
    requires z <= e <= |t| && (forall i :: 0 <= i < z ==> t[i] == '1') && (z < |t| ==> t[z] != '1')
    requires (forall i :: z <= i < e ==> !IsSpace(t[i])) && (forall i :: e <= i < |t| ==> IsSpace(t[i]))
    requires Valid58(t[z..e])
    ensures TrimRight(t) == t[..e] && Valid58(t[..e]) && Lead(t[..e], '1') == z
  {
    hide Map58;
    var s := t[..e];
    if e > 0 { assert !IsSpace('1'); }
    TrimRightAt(t, e);
    LeadIs(s, '1', z);
    forall i | 0 <= i < |s| ensures Map58(s[i]) >= 0 {
      if i < z { OneIsZero(); } else { assert s[i] == t[z..e][i - z]; }
    }
  }

  lemma OneIsZero()
    ensures Map58('1') == 0
  {}

  // ---------- Round trips ----------

  lemma Untrimmed(s: string)
    requires Valid58(s)
    ensures Trim(s) == s
  {
    hide Map58, IsSpace;
    if s != "" {
      SpaceIsNoDigit(s[0]);
      SpaceIsNoDigit(s[|s| - 1]);
    }
  }

  /** Decoding what was encoded gives the bytes back, exactly if they are within the cap. */
  method DecodeEncoded(x: seq<nat>, max: nat) returns (ok: bool, y: seq<nat>)
    requires Digits(256, x)
    ensures ok <==> |x| <= max
    ensures ok ==> y == x
  {
    hide Num, Map58, Lead, Trim, Digits, Valid58, Matches;
    var s := EncodeBase58(x);
    MatchesValid(x, s);
    Untrimmed(s);
    ok, y := DecodeBase58(s, max);
    if ok { OneMeaning(x, y, s); } else { assert !Decodes(s, x, max); }
  }

  lemma MatchesValid(x: seq<nat>, s: string)
    requires Matches(x, s)
    ensures Valid58(s) && Digits(256, x)
  {}

  /** Encoding what was decoded gives the string back, without the spaces around it. */
  method EncodeDecoded(str: string, max: nat) returns (ok: bool, r: string)
    ensures ok <==> exists x :: Decodes(Trim(str), x, max)
    ensures ok ==> r == Trim(str)
  {
    hide Num, Map58, Lead, Trim, Digits, Valid58, Matches;
    var x;
    ok, x := DecodeBase58(str, max);
    r := "";
    if ok {
      MatchesValid(x, Trim(str));
      r := EncodeBase58(x);
      OneText(x, r, Trim(str));
    }
  }

  // ---------- With a checksum ----------

  const INT_MAX := 0x7fff_ffff

  ghost predicate FourBytes(hash: seq<nat> -> seq<nat>) {
    forall x :: |hash(x)| == 4 && Digits(256, hash(x))
  }

  function Cap(max: nat): nat {
    if max > INT_MAX - 4 then INT_MAX else max + 4
  }

  method EncodeBase58Check(input: seq<nat>, hash: seq<nat> -> seq<nat>) returns (r: string)
    requires Digits(256, input) && FourBytes(hash)
    ensures Matches(input + hash(input), r)
  {
    var sum := hash(input);
    r := EncodeBase58(input + sum);
  }

  /** Accepted exactly if the string stands for some bytes followed by their own checksum. */
  method DecodeBase58Check(str: string, max: nat, hash: seq<nat> -> seq<nat>) returns (ok: bool, x: seq<nat>)
    requires FourBytes(hash)
    ensures ok ==> Matches(x + hash(x), Trim(str)) && |x| + 4 <= Cap(max)
    ensures !ok ==> forall y :: !Decodes(Trim(str), y + hash(y), Cap(max))
  {
    hide Num, Map58, Trim, Matches;
    var vch;
    ok, vch := DecodeBase58(str, Cap(max));
    if !ok { return false, []; }
    forall y | Decodes(Trim(str), y + hash(y), Cap(max))
      ensures |vch| >= 4 && y == vch[..|vch| - 4] && hash(y) == vch[|vch| - 4..]
    {
      OneMeaning(y + hash(y), vch, Trim(str));
      assert |hash(y)| == 4;
    }
    if |vch| < 4 { return false, []; }
    x := vch[..|vch| - 4];
    var sum := hash(x);
    if sum != vch[|vch| - 4..] { return false, []; }
    assert x + sum == vch;
    return true, x;
  }
}
