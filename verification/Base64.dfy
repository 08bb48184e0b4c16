/** The base64 codec, against section 4 of RFC 4648. */
module Base64 {
  import opened Bytes

  const BASE64_CHARS :=
    "ABCDEFGHIJKLM" + "NOPQRSTUVWXYZ" +
    "abcdefghijklm" + "nopqrstuvwxyz" +
    "0123456789" + "+/"

  // ----- the table

  predicate RunsFrom(s: string, first: char, k: nat)
    requires first as int + |s| < 0xD800
    decreases |s| - k
  {
    k >= |s| || (s[k] == first + k as char && RunsFrom(s, first, k + 1))
  }

  lemma {:induction false} RunAt(s: string, first: char, k: nat, i: nat)
    requires first as int + |s| < 0xD800 && RunsFrom(s, first, k) && k <= i < |s|
    ensures s[i] == first + i as char
    decreases i - k
  {
    if k < i { RunAt(s, first, k + 1, i); }
  }

  /** The digit for the value `k`, by the ranges of table 1 in RFC 4648. */
  function Digit(k: nat): char
    requires k < 64
  {
    if k < 26 then 'A' + k as char
    else if k < 52 then 'a' + (k - 26) as char
    else if k < 62 then '0' + (k - 52) as char
    else if k == 62 then '+' else '/'
  }

  lemma TableMatches(k: nat)
    requires k < 64
    ensures |BASE64_CHARS| == 64 && BASE64_CHARS[k] == Digit(k)
  {
    if k < 13 {
      assert RunsFrom("ABCDEFGHIJKLM", 'A', 0);
      RunAt("ABCDEFGHIJKLM", 'A', 0, k);
    } else if k < 26 {
      assert RunsFrom("NOPQRSTUVWXYZ", 'N', 0);
      RunAt("NOPQRSTUVWXYZ", 'N', 0, k - 13);
    } else if k < 39 {
      assert RunsFrom("abcdefghijklm", 'a', 0);
      RunAt("abcdefghijklm", 'a', 0, k - 26);
    } else if k < 52 {
      assert RunsFrom("nopqrstuvwxyz", 'n', 0);
      RunAt("nopqrstuvwxyz", 'n', 0, k - 39);
    } else if k < 62 {
      assert RunsFrom("0123456789", '0', 0);
      RunAt("0123456789", '0', 0, k - 52);
    }
  }

  predicate IsBase64(c: char) {
    'A' <= c <= 'Z' || 'a' <= c <= 'z' || '0' <= c <= '9' || c == '+' || c == '/'
  }

  /** Where the table holds `c`, as an unsigned char: a failed find turns into 255. */
  function Find(c: char): byte {
    if 'A' <= c <= 'Z' then c as int - 'A' as int
    else if 'a' <= c <= 'z' then c as int - 'a' as int + 26
    else if '0' <= c <= '9' then c as int - '0' as int + 52
    else if c == '+' then 62
    else if c == '/' then 63
    else 255
  }

  lemma FindDigit(k: nat)
    requires k < 64
    ensures IsBase64(Digit(k)) && Find(Digit(k)) == k
  {
  }

  lemma DigitFind(c: char)
    ensures Find(c) < 64 <==> IsBase64(c)
    ensures IsBase64(c) ==> Digit(Find(c)) == c
    ensures !IsBase64(c) ==> Find(c) == 255
  {
  }

  // ----- section 4 of RFC 4648: 24-bit groups

  /** A 24-bit group read as three octets, and as four values of six bits. */
  function Octets(a: bv8, b: bv8, c: bv8): bv24 {
    ((a as bv24) << 16) | ((b as bv24) << 8) | (c as bv24)
  }

  function Sextets(p: bv8, q: bv8, r: bv8, s: bv8): bv24
    requires p < 64 && q < 64 && r < 64 && s < 64
  {
    ((p as bv24) << 18) | ((q as bv24) << 12) | ((r as bv24) << 6) | (s as bv24)
  }

  function Sextet(group: bv24, k: nat): (v: bv8)
    requires k < 4
    ensures v < 64
  {
    (if k == 0 then group >> 18 else if k == 1 then (group >> 12) & 0x3f
     else if k == 2 then (group >> 6) & 0x3f else group & 0x3f) as bv8
  }

  function Octet(group: bv24, k: nat): bv8
    requires k < 3
  {
    (if k == 0 then group >> 16 else if k == 1 then (group >> 8) & 0xff else group & 0xff) as bv8
  }

  predicate Small(vs: seq<byte>) {
    forall k | 0 <= k < |vs| :: vs[k] < 64
  }

  function Chars(vs: seq<byte>): (r: string)
    requires Small(vs)
    ensures |r| == |vs|
  {
    seq(|vs|, k requires 0 <= k < |vs| => Digit(vs[k]))
  }

  function GroupValues(a: byte, b: byte, c: byte): (r: seq<byte>)
    ensures |r| == 4 && Small(r)
  {
    var group := Octets(a as bv8, b as bv8, c as bv8);
    [Sextet(group, 0) as int, Sextet(group, 1) as int, Sextet(group, 2) as int, Sextet(group, 3) as int]
  }

  /** The digits for one to three bytes: missing bytes are zero, and the digits that hold nothing but
      them are left out. */
  function GroupDigits(s: seq<byte>): (r: string)
    requires 1 <= |s| <= 3
    ensures |r| == |s| + 1
  {
    Chars(GroupValues(s[0], if |s| > 1 then s[1] else 0, if |s| > 2 then s[2] else 0)[..|s| + 1])
  }

  function Digits(s: seq<byte>): string {
    if s == [] then "" else if |s| < 3 then GroupDigits(s) else GroupDigits(s[..3]) + Digits(s[3..])
  }

  function Pads(n: nat): string {
    if n == 0 then "" else "=" + Pads(n - 1)
  }

  function Encoding(s: seq<byte>): string {
    Digits(s) + Pads((3 - |s| % 3) % 3)
  }

  predicate AllBase64(s: string) {
    forall k | 0 <= k < |s| :: IsBase64(s[k])
  }

  function Value(s: string, k: nat): (v: byte)
    requires AllBase64(s)
    ensures v < 64
  {
    if k < |s| then DigitFind(s[k]); Find(s[k]) else 0
  }

  function GroupOctets(p: byte, q: byte, r: byte, s: byte): (o: seq<byte>)
    requires p < 64 && q < 64 && r < 64 && s < 64
    ensures |o| == 3
  {
    SmallBits(p);
    SmallBits(q);
    SmallBits(r);
    SmallBits(s);
    var group := Sextets(p as bv8, q as bv8, r as bv8, s as bv8);
    [Octet(group, 0) as int, Octet(group, 1) as int, Octet(group, 2) as int]
  }

  lemma SmallBits(k: byte)
    ensures k < 64 <==> (k as bv8) < 64
  {
  }

  /** The bytes of up to four digits: a last byte that is not complete is left out. */
  function GroupBytes(s: string): (r: seq<byte>)
    requires 1 <= |s| <= 4 && AllBase64(s)
    ensures |r| == |s| - 1
  {
    GroupOctets(Value(s, 0), Value(s, 1), Value(s, 2), Value(s, 3))[..|s| - 1]
  }

  function DigitsValue(s: string): seq<byte>
    requires AllBase64(s)
  {
    if s == [] then [] else if |s| < 4 then GroupBytes(s) else GroupBytes(s[..4]) + DigitsValue(s[4..])
  }

  /** The digits before the first character that is none. */
  function Body(s: string): (r: string)
    ensures AllBase64(r) && r <= s
    ensures |r| < |s| ==> !IsBase64(s[|r|])
  {
    if s == [] || !IsBase64(s[0]) then [] else [s[0]] + Body(s[1..])
  }

  function Decoding(s: string): seq<byte> {
    DigitsValue(Body(s))
  }

  // ----- the codec

  lemma SplitMasks(a: bv8, b: bv8, c: bv8)
    ensures (a & 0xfc) >> 2 == Sextet(Octets(a, b, c), 0)
    ensures ((a & 0x03) << 4) + ((b & 0xf0) >> 4) == Sextet(Octets(a, b, c), 1)
    ensures ((b & 0x0f) << 2) + ((c & 0xc0) >> 6) == Sextet(Octets(a, b, c), 2)
    ensures c & 0x3f == Sextet(Octets(a, b, c), 3)
  {
  }

  /** The two shifts of the decoder read the same bytes, whatever stands in the places it does not use. */
  lemma JoinMasks(p: bv8, q: bv8, r: bv8, s: bv8)
    requires p < 64 && q < 64
    ensures (p << 2) + ((q & 0x30) >> 4) == Octet(Sextets(p, q, if r < 64 then r else 0, if s < 64 then s else 0), 0)
    ensures r < 64 ==>
              ((q & 0x0f) << 4) + ((r & 0x3c) >> 2) == Octet(Sextets(p, q, r, if s < 64 then s else 0), 1)
    ensures r < 64 && s < 64 ==> ((r & 0x03) << 6) + s == Octet(Sextets(p, q, r, s), 2)
  {
  }

  method SplitBytes(a: byte, b: byte, c: byte) returns (v0: byte, v1: byte, v2: byte, v3: byte)
    ensures [v0, v1, v2, v3] == GroupValues(a, b, c)
  {
    var x, y, z := a as bv8, b as bv8, c as bv8;
    SplitMasks(x, y, z);
    v0 := ((x & 0xfc) >> 2) as int;
    v1 := (((x & 0x03) << 4) + ((y & 0xf0) >> 4)) as int;
    v2 := (((y & 0x0f) << 2) + ((z & 0xc0) >> 6)) as int;
    v3 := (z & 0x3f) as int;
  }

  method SplitGroup(in3: array<byte>, out4: array<byte>)
    requires in3.Length == 3 && out4.Length == 4 && in3 != out4
    modifies out4
    ensures out4[..] == GroupValues(in3[0], in3[1], in3[2])
  {
    out4[0], out4[1], out4[2], out4[3] := SplitBytes(in3[0], in3[1], in3[2]);
  }

  method AppendDigits(ret: string, out4: array<byte>, n: nat) returns (r: string)
    requires n <= out4.Length && Small(out4[..])
    ensures r == ret + Chars(out4[..n])
  {
    hide Digit;
    r := ret;
    var i := 0;
    while i < n
      invariant 0 <= i <= n
      invariant r == ret + Chars(out4[..i])
    {
      var c := DigitOf(out4[i]);
      r := r + [c];
      assert Chars(out4[..i + 1]) == Chars(out4[..i]) + [Digit(out4[i])];
      i := i + 1;
    }
  }

  method DigitOf(v: byte) returns (c: char)
    requires v < 64
    ensures c == Digit(v)
  {
    TableMatches(v);
    c := BASE64_CHARS[v];
  }

  /** The digits written so far are those of the bytes before `from`. */
  ghost predicate EncodedTo(bytes: seq<byte>, ret: string, from: nat) {
    from <= |bytes| && from % 3 == 0 && ret + Digits(bytes[from..]) == Digits(bytes)
  }

  lemma EncodeStart(bytes: seq<byte>)
    ensures EncodedTo(bytes, "", 0)
  {
    assert bytes[0..] == bytes;
  }

  lemma EncodeStep(bytes: seq<byte>, ret: string, from: nat)
    requires from + 3 <= |bytes| && EncodedTo(bytes, ret, from)
    ensures EncodedTo(bytes, ret + GroupDigits(bytes[from..from + 3]), from + 3)
  {
    hide GroupDigits;
    var rest := bytes[from..];
    assert rest[..3] == bytes[from..from + 3] && rest[3..] == bytes[from + 3..];
    assert ret + (GroupDigits(rest[..3]) + Digits(rest[3..])) == ret + GroupDigits(rest[..3]) + Digits(rest[3..]);
  }

  lemma EncodeEnd(bytes: seq<byte>, ret: string, from: nat)
    requires from == |bytes| && EncodedTo(bytes, ret, from)
    ensures ret == Encoding(bytes)
  {
  }

  predicate HoldsBytes(in3: seq<byte>, bytes: seq<byte>) {
    |bytes| <= |in3| && forall k | 0 <= k < |bytes| :: in3[k] == bytes[k]
  }

  lemma OneMoreByte(in3: seq<byte>, now: seq<byte>, bytes: seq<byte>, from: nat, pos: nat)
    requires from <= pos < |bytes| && pos - from < |in3| && HoldsBytes(in3, bytes[from..pos])
    requires now == in3[pos - from := bytes[pos]]
    ensures HoldsBytes(now, bytes[from..pos + 1])
  {
  }

  lemma NoBytes(in3: seq<byte>)
    ensures HoldsBytes(in3, [])
  {
  }

  method Encode(bytes: seq<byte>) returns (ret: string)
    ensures ret == Encoding(bytes)
  {
    hide EncodedTo, HoldsBytes, GroupDigits, Encoding;
    ret := "";
    var i, pos := 0, 0;
    var in3, out4 := new byte[3], new byte[4];
    EncodeStart(bytes);
    NoBytes(in3[..]);
    while pos < |bytes|
      invariant 0 <= i < 3 && i <= pos <= |bytes|
      invariant HoldsBytes(in3[..], bytes[pos - i..pos])
      invariant EncodedTo(bytes, ret, pos - i)
    {
      ghost var was := in3[..];
      in3[i] := bytes[pos];
      OneMoreByte(was, in3[..], bytes, pos - i, pos);
      i, pos := i + 1, pos + 1;
      if i == 3 {
        EncodeStep(bytes, ret, pos - 3);
        ret := EncodeGroup(ret, in3, out4, bytes[pos - 3..pos]);
        i := 0;
        NoBytes(in3[..]);
        assert bytes[pos..pos] == [];
      }
    }
    if i > 0 {
      assert bytes[pos - i..pos] == bytes[|bytes| - i..];
      ret := EncodeTail(bytes, ret, in3, out4, i);
    } else {
      EncodeEnd(bytes, ret, pos);
    }
  }

  method EncodeGroup(digits: string, in3: array<byte>, out4: array<byte>, ghost group: seq<byte>) returns (ret: string)
    requires in3.Length == 3 && out4.Length == 4 && in3 != out4
    requires |group| == 3 && HoldsBytes(in3[..], group)
    modifies out4
    ensures ret == digits + GroupDigits(group)
  {
    hide GroupValues, Chars, Small;
    SplitGroup(in3, out4);
    assert out4[..] == out4[..4];
    ret := AppendDigits(digits, out4, 4);
  }

  /** The last one or two bytes: zero the rest of the group, leave out the digits of it, and pad. */
  method EncodeTail(ghost bytes: seq<byte>, digits: string, in3: array<byte>, out4: array<byte>, i: nat)
    returns (ret: string)
    requires in3.Length == 3 && out4.Length == 4 && in3 != out4
    requires 0 < i < 3 && i <= |bytes| && HoldsBytes(in3[..], bytes[|bytes| - i..])
    requires EncodedTo(bytes, digits, |bytes| - i)
    modifies in3, out4
    ensures ret == Encoding(bytes)
  {
    hide Octets, Sextet, GroupValues, Chars, Small;
    ghost var rest := bytes[|bytes| - i..];
    var j := i;
    while j < 3
      invariant i <= j <= 3
      invariant forall k | 0 <= k < i :: in3[k] == rest[k]
      invariant forall k | i <= k < j :: in3[k] == 0
    {
      in3[j] := 0;
      j := j + 1;
    }
    SplitGroup(in3, out4);
    ret := AppendDigits(digits, out4, i + 1);
    ret := AppendPads(ret, i);
  }

  method AppendPads(ret: string, n: nat) returns (r: string)
    requires n <= 3
    ensures r == ret + Pads(3 - n)
  {
    r := ret;
    var i := n;
    while i < 3
      invariant n <= i <= 3
      invariant r + Pads(3 - i) == ret + Pads(3 - n)
    {
      i := i + 1;
      r := r + "=";
    }
  }

  // ----- decoding

  function Clip(v: byte): (r: byte)
    ensures r < 64
  {
    if v < 64 then v else 0
  }

  method JoinBytes(p: byte, q: byte, r: byte, s: byte) returns (v0: byte, v1: byte, v2: byte)
    ensures var o := GroupOctets(Clip(p), Clip(q), Clip(r), Clip(s));
            p < 64 && q < 64 ==> v0 == o[0] && (r < 64 ==> v1 == o[1] && (s < 64 ==> v2 == o[2]))
  {
    var w, x, y, z := p as bv8, q as bv8, r as bv8, s as bv8;
    v0 := ((w << 2) + ((x & 0x30) >> 4)) as int;
    v1 := (((x & 0x0f) << 4) + ((y & 0x3c) >> 2)) as int;
    v2 := (((y & 0x03) << 6) + z) as int;
    SmallBits(p);
    SmallBits(q);
    SmallBits(r);
    SmallBits(s);
    if p < 64 && q < 64 { JoinMasks(w, x, y, z); }
  }

  /** Turn the four characters of a group into their places in the table, and those into bytes. */
  method JoinGroup(in4: array<byte>, out3: array<byte>, ghost digits: string)
    requires in4.Length == 4 && out3.Length == 3 && in4 != out3
    requires 1 <= |digits| <= 4 && AllBase64(digits)
    requires forall k | 0 <= k < 4 :: in4[k] == if k < |digits| then digits[k] as int else 0
    modifies in4, out3
    ensures out3[..|digits| - 1] == GroupBytes(digits)
  {
    hide GroupOctets;
    var j := 0;
    while j < 4
      invariant 0 <= j <= 4
      invariant forall k | 0 <= k < j :: in4[k] == if k < |digits| then Value(digits, k) else 255
      invariant forall k | j <= k < 4 :: in4[k] == if k < |digits| then digits[k] as int else 0
    {
      in4[j] := Find(in4[j] as char);
      j := j + 1;
    }
    assert forall k | 0 <= k < 4 :: Clip(in4[k]) == Value(digits, k);
    out3[0], out3[1], out3[2] := JoinBytes(in4[0], in4[1], in4[2], in4[3]);
  }

  /** The bytes written so far are those of the digits before `from`. */
  ghost predicate DecodedTo(body: string, ret: seq<byte>, from: nat)
    requires AllBase64(body)
  {
    from <= |body| && ret + DigitsValue(body[from..]) == DigitsValue(body)
  }

  lemma DecodeStart(body: string)
    requires AllBase64(body)
    ensures DecodedTo(body, [], 0)
  {
    assert body[0..] == body;
  }

  lemma DecodeStep(body: string, ret: seq<byte>, from: nat)
    requires AllBase64(body) && from + 4 <= |body| && DecodedTo(body, ret, from)
    ensures DecodedTo(body, ret + GroupBytes(body[from..from + 4]), from + 4)
  {
    hide GroupBytes;
    var rest := body[from..];
    assert rest[..4] == body[from..from + 4] && rest[4..] == body[from + 4..];
    assert ret + (GroupBytes(rest[..4]) + DigitsValue(rest[4..])) ==
           ret + GroupBytes(rest[..4]) + DigitsValue(rest[4..]);
  }

  lemma DecodeEnd(body: string, ret: seq<byte>, from: nat)
    requires AllBase64(body) && from <= |body| < from + 4 && DecodedTo(body, ret, from)
    ensures DigitsValue(body) == if from == |body| then ret else ret + GroupBytes(body[from..])
  {
  }

  lemma SliceBase64(body: string, from: nat, to: nat)
    requires from <= to <= |body| && AllBase64(body)
    ensures AllBase64(body[from..to])
  {
  }

  predicate HoldsDigits(in4: seq<byte>, digits: string) {
    |digits| <= |in4| && forall k | 0 <= k < |digits| :: in4[k] == digits[k] as int
  }

  lemma OneMoreDigit(in4: seq<byte>, now: seq<byte>, s: string, from: nat, pos: nat)
    requires from <= pos < |s| && pos - from < |in4| && HoldsDigits(in4, s[from..pos])
    requires |now| == |in4| && now == in4[pos - from := now[pos - from]] && now[pos - from] == s[pos] as int
    ensures HoldsDigits(now, s[from..pos + 1])
  {
  }

  method Decode(s: string) returns (ret: seq<byte>)
    ensures ret == Decoding(s)
  {
    hide GroupBytes, DecodedTo, HoldsDigits, AllBase64, DigitsValue, Body, IsBase64;
    ghost var body := Body(s);
    var i, pos := 0, 0;
    var in4, out3 := new byte[4], new byte[3];
    ret := [];
    DecodeStart(body);
    NothingHeld(in4[..]);
    while pos < |s| && s[pos] != '=' && IsBase64(s[pos])
      invariant 0 <= i < 4 && i <= pos <= |body|
      invariant HoldsDigits(in4[..], body[pos - i..pos])
      invariant DecodedTo(body, ret, pos - i)
    {
      ghost var was := in4[..];
      DigitIsByte(s[pos]);
      in4[i] := s[pos] as int;
      assert in4[..] == was[i := in4[i]];
      OneMoreDigit(was, in4[..], body, pos - i, pos);
      i, pos := i + 1, pos + 1;
      if i == 4 {
        ghost var digits := body[pos - 4..pos];
        SliceBase64(body, pos - 4, pos);
        DecodeStep(body, ret, pos - 4);
        var group := DecodeTail(in4, out3, 4, digits);
        ret := ret + group;
        i := 0;
        NothingHeld(in4[..]);
        assert body[pos..pos] == [];
      }
    }
    assert pos == |body| by { BodyEnds(s, pos); }
    DecodeEnd(body, ret, pos - i);
    if i > 0 {
      SliceBase64(body, pos - i, pos);
      assert body[pos - i..] == body[pos - i..pos];
      var tail := DecodeTail(in4, out3, i, body[pos - i..]);
      ret := ret + tail;
    }
  }

  lemma DigitIsByte(c: char)
    requires IsBase64(c)
    ensures c as int < 256
  {
  }

  lemma NothingHeld(in4: seq<byte>)
    ensures HoldsDigits(in4, "")
  {
  }

  lemma BodyEnds(s: string, pos: nat)
    requires pos <= |Body(s)| && (pos < |s| ==> s[pos] == '=' || !IsBase64(s[pos]))
    ensures pos == |Body(s)|
  {
  }

  /** A group of `i` digits; the places of missing ones are cleared. */
  method DecodeTail(in4: array<byte>, out3: array<byte>, i: nat, ghost digits: string) returns (tail: seq<byte>)
    requires in4.Length == 4 && out3.Length == 3 && in4 != out3
    requires 0 < i <= 4 && |digits| == i && AllBase64(digits)
    requires HoldsDigits(in4[..], digits)
    modifies in4, out3
    ensures tail == GroupBytes(digits)
  {
    hide GroupBytes;
    var j := i;
    while j < 4
      invariant i <= j <= 4
      invariant forall k | 0 <= k < i :: in4[k] == digits[k] as int
      invariant forall k | i <= k < j :: in4[k] == 0
    {
      in4[j] := 0;
      j := j + 1;
    }
    JoinGroup(in4, out3, digits);
    tail := out3[..i - 1];
  }

  // ----- round trips

  lemma SextetsMakeGroup(g: bv24)
    ensures Sextets(Sextet(g, 0), Sextet(g, 1), Sextet(g, 2), Sextet(g, 3)) == g
  {
  }

  lemma OctetsMakeGroup(g: bv24)
    ensures Octets(Octet(g, 0), Octet(g, 1), Octet(g, 2)) == g
  {
  }

  lemma OctetsOfGroup(a: bv8, b: bv8, c: bv8)
    ensures var g := Octets(a, b, c); Octet(g, 0) == a && Octet(g, 1) == b && Octet(g, 2) == c
    ensures c == 0 ==> Sextet(Octets(a, b, c), 3) == 0
    ensures b == 0 && c == 0 ==> Sextet(Octets(a, b, c), 2) == 0
  {
  }

  lemma SextetsOfGroup(p: bv8, q: bv8, r: bv8, s: bv8)
    requires p < 64 && q < 64 && r < 64 && s < 64
    ensures var h := Sextets(p, q, r, s);
            Sextet(h, 0) == p && Sextet(h, 1) == q && Sextet(h, 2) == r && Sextet(h, 3) == s
  {
  }

  lemma ByteBits(a: byte)
    ensures (a as bv8) as int == a
  {
    NibbleBits(a / 16);
    NibbleBits(a % 16);
    NibblesMakeByte((a / 16) as bv8, (a % 16) as bv8);
    BitsBack(((a / 16) as bv8) * 16 + (a % 16) as bv8);
  }

  lemma NibbleBits(k: byte)
    requires k < 16
    ensures (k as bv8) < 16 && (k as bv8) as int == k
  {
  }

  lemma NibblesMakeByte(h: bv8, l: bv8)
    requires h < 16 && l < 16
    ensures (h * 16 + l) as int == (h as int) * 16 + l as int
  {
  }

  lemma BitsBack(v: bv8)
    ensures (v as int) as bv8 == v
  {
  }

  lemma OctetsBack(a: byte, b: byte, c: byte)
    ensures var v := GroupValues(a, b, c);
            GroupOctets(v[0], v[1], v[2], v[3]) == [a, b, c] &&
            (c == 0 ==> v[3] == 0) && (b == c == 0 ==> v[2] == 0)
  {
    hide Octets, Sextets, Sextet, Octet;
    SextetsMakeGroup(Octets(a as bv8, b as bv8, c as bv8));
    OctetsOfGroup(a as bv8, b as bv8, c as bv8);
    ByteBits(a);
    ByteBits(b);
    ByteBits(c);
  }

  lemma CharsValue(vs: seq<byte>, k: nat)
    requires Small(vs)
    ensures AllBase64(Chars(vs))
    ensures Value(Chars(vs), k) == if k < |vs| then vs[k] else 0
  {
    forall i | 0 <= i < |vs| ensures IsBase64(Chars(vs)[i]) && Find(Chars(vs)[i]) == vs[i] { FindDigit(vs[i]); }
  }

  lemma GroupRoundTrip(s: seq<byte>)
    requires 1 <= |s| <= 3
    ensures AllBase64(GroupDigits(s)) && GroupBytes(GroupDigits(s)) == s
  {
    hide GroupValues, GroupOctets, Chars, Small, Value, AllBase64;
    var a, b, c := s[0], if |s| > 1 then s[1] else 0, if |s| > 2 then s[2] else 0;
    var vs := GroupValues(a, b, c);
    TakeSmall(vs, |s| + 1);
    CharsValue(vs[..|s| + 1], 0);
    CharsValue(vs[..|s| + 1], 1);
    CharsValue(vs[..|s| + 1], 2);
    CharsValue(vs[..|s| + 1], 3);
    OctetsBack(a, b, c);
    assert GroupOctets(vs[0], vs[1], vs[2], vs[3])[..|s|] == s;
  }

  lemma TakeSmall(vs: seq<byte>, n: nat)
    requires Small(vs) && n <= |vs|
    ensures Small(vs[..n])
  {
  }

  lemma {:induction false} DigitsRoundTrip(s: seq<byte>)
    ensures AllBase64(Digits(s)) && DigitsValue(Digits(s)) == s
  {
    hide GroupDigits, GroupBytes;
    if s != [] && |s| < 3 {
      GroupRoundTrip(s);
    } else if s != [] {
      GroupRoundTrip(s[..3]);
      DigitsRoundTrip(s[3..]);
      assert Digits(s)[..4] == GroupDigits(s[..3]) && Digits(s)[4..] == Digits(s[3..]);
    }
  }

  lemma {:induction false} BodyBeforePads(t: string, n: nat)
    requires AllBase64(t)
    ensures Body(t + Pads(n)) == t
  {
    if t == [] {
      assert t + Pads(n) == Pads(n);
    } else {
      assert (t + Pads(n))[1..] == t[1..] + Pads(n);
      BodyBeforePads(t[1..], n);
    }
  }

  /** Decoding an encoding gives the bytes back. */
  lemma RoundTrip(s: seq<byte>)
    ensures Decoding(Encoding(s)) == s
  {
    DigitsRoundTrip(s);
    BodyBeforePads(Digits(s), (3 - |s| % 3) % 3);
  }

  lemma {:induction false} PadsShape(n: nat)
    ensures |Pads(n)| == n && forall k | 0 <= k < n :: Pads(n)[k] == '='
  {
    if n > 0 { PadsShape(n - 1); }
  }

  lemma {:induction false} DigitsLength(s: seq<byte>)
    ensures |Digits(s)| == |s| + (|s| + 2) / 3
  {
    if |s| >= 3 { DigitsLength(s[3..]); }
  }

  /** Four characters for every three bytes begun; at the end, and only there, one pad for each byte
      missing from the last group. */
  lemma EncodingShape(s: seq<byte>, k: nat)
    ensures |Encoding(s)| == 4 * ((|s| + 2) / 3)
    ensures var pads := 3 * ((|s| + 2) / 3) - |s|;
            k < |Encoding(s)| ==>
              if k < |Encoding(s)| - pads then IsBase64(Encoding(s)[k]) else Encoding(s)[k] == '='
  {
    hide Digits, Pads;
    DigitsLength(s);
    DigitsRoundTrip(s);
    PadsShape((3 - |s| % 3) % 3);
    PadCount(|s|);
    assert |Digits(s)| == 4 * ((|s| + 2) / 3) - (3 * ((|s| + 2) / 3) - |s|);
  }

  lemma PadCount(n: nat)
    ensures (3 - n % 3) % 3 == 3 * ((n + 2) / 3) - n
    ensures (4 - (n + (n + 2) / 3) % 4) % 4 == (3 - n % 3) % 3
  {
    var q, r := n / 3, n % 3;
    assert n == 3 * q + r;
    if r == 0 {
      assert n + (n + 2) / 3 == 4 * q;
    } else {
      assert n + (n + 2) / 3 == 4 * q + r + 1;
    }
  }

  // ----- the other way round

  /** The digits are those of whole bytes: no group of a single digit, and the bits of the last digit
      that belong to no byte are zero. */
  predicate TailClean(t: string) {
    && |t| % 4 != 1
    && (|t| % 4 == 2 ==> (Find(t[|t| - 1]) as bv8) & 0x0f == 0)
    && (|t| % 4 == 3 ==> (Find(t[|t| - 1]) as bv8) & 0x03 == 0)
  }

  predicate Canonical(s: string) {
    TailClean(Body(s)) && s == Body(s) + Pads((4 - |Body(s)| % 4) % 4)
  }

  lemma BitsLeftOver(p: bv8, q: bv8, r: bv8)
    requires p < 64 && q < 64 && r < 64
    ensures var g := Octets(Octet(Sextets(p, q, 0, 0), 0), 0, 0);
            Sextet(g, 0) == p && (Sextet(g, 1) == q <==> q & 0x0f == 0)
    ensures var h := Sextets(p, q, r, 0);
            var g := Octets(Octet(h, 0), Octet(h, 1), 0);
            Sextet(g, 0) == p && Sextet(g, 1) == q && (Sextet(g, 2) == r <==> r & 0x03 == 0)
  {
  }

  lemma SameBits(v: bv8, k: byte)
    ensures v as int == k <==> v == k as bv8
  {
    ByteBits(k);
  }

  lemma TwoValuesBack(p: byte, q: byte)
    requires p < 64 && q < 64
    ensures var v := GroupValues(GroupOctets(p, q, 0, 0)[0], 0, 0);
            v[0] == p && (v[1] == q <==> (q as bv8) & 0x0f == 0)
  {
    hide Octets, Sextets, Sextet, Octet;
    SmallBits(p);
    SmallBits(q);
    BitsLeftOver(p as bv8, q as bv8, 0);
    var g := Octets(Octet(Sextets(p as bv8, q as bv8, 0, 0), 0), 0, 0);
    SameBits(Sextet(g, 0), p);
    SameBits(Sextet(g, 1), q);
  }

  lemma ThreeValuesBack(p: byte, q: byte, r: byte)
    requires p < 64 && q < 64 && r < 64
    ensures var o := GroupOctets(p, q, r, 0);
            var v := GroupValues(o[0], o[1], 0);
            v[0] == p && v[1] == q && (v[2] == r <==> (r as bv8) & 0x03 == 0)
  {
    hide Octets, Sextets, Sextet, Octet;
    SmallBits(p);
    SmallBits(q);
    SmallBits(r);
    BitsLeftOver(p as bv8, q as bv8, r as bv8);
    var h := Sextets(p as bv8, q as bv8, r as bv8, 0);
    var g := Octets(Octet(h, 0), Octet(h, 1), 0);
    SameBits(Sextet(g, 0), p);
    SameBits(Sextet(g, 1), q);
    SameBits(Sextet(g, 2), r);
  }

  lemma FourValuesBack(p: byte, q: byte, r: byte, s: byte)
    requires p < 64 && q < 64 && r < 64 && s < 64
    ensures var o := GroupOctets(p, q, r, s);
            GroupValues(o[0], o[1], o[2]) == [p, q, r, s]
  {
    hide Octets, Sextets, Sextet, Octet;
    SmallBits(p);
    SmallBits(q);
    SmallBits(r);
    SmallBits(s);
    OctetsMakeGroup(Sextets(p as bv8, q as bv8, r as bv8, s as bv8));
    SextetsOfGroup(p as bv8, q as bv8, r as bv8, s as bv8);
    ByteBits(p);
    ByteBits(q);
    ByteBits(r);
    ByteBits(s);
  }

  lemma CharsBack(vs: seq<byte>, t: string)
    requires Small(vs) && AllBase64(t) && |vs| == |t|
    ensures Chars(vs) == t <==> forall k | 0 <= k < |t| :: vs[k] == Value(t, k)
  {
    forall k | 0 <= k < |t| ensures Chars(vs)[k] == t[k] <==> vs[k] == Value(t, k) {
      FindDigit(vs[k]);
      DigitFind(t[k]);
    }
  }

  lemma GroupCanonical(t: string)
    requires AllBase64(t) && 2 <= |t| <= 4
    ensures GroupDigits(GroupBytes(t)) == t <==> TailClean(t)
  {
    hide GroupValues, GroupOctets, Chars, Small, AllBase64;
    var o := GroupBytes(t);
    var vs := GroupValues(o[0], if |t| > 2 then o[1] else 0, if |t| > 3 then o[2] else 0);
    var p, q, r, s := Value(t, 0), Value(t, 1), Value(t, 2), Value(t, 3);
    TakeSmall(vs, |t|);
    CharsBack(vs[..|t|], t);
    if |t| == 2 {
      TwoValuesBack(p, q);
    } else if |t| == 3 {
      ThreeValuesBack(p, q, r);
    } else {
      FourValuesBack(p, q, r, s);
    }
  }

  lemma TailCleanLater(t: string)
    requires |t| >= 4
    ensures TailClean(t[..4]) && (TailClean(t) <==> TailClean(t[4..]))
  {
    if |t| > 4 { assert t[4..][|t[4..]| - 1] == t[|t| - 1]; }
  }

  lemma FirstGroup(t: string)
    requires AllBase64(t) && |t| >= 4
    ensures var s := DigitsValue(t);
            Digits(s) == t <==> GroupDigits(GroupBytes(t[..4])) == t[..4] && Digits(DigitsValue(t[4..])) == t[4..]
  {
    hide GroupDigits, GroupBytes;
    var s := DigitsValue(t);
    assert s[..3] == GroupBytes(t[..4]) && s[3..] == DigitsValue(t[4..]);
    assert t == t[..4] + t[4..];
    assert Digits(s)[..4] == GroupDigits(s[..3]) && Digits(s)[4..] == Digits(s[3..]);
  }

  lemma {:induction false} DigitsCanonical(t: string)
    requires AllBase64(t)
    ensures Digits(DigitsValue(t)) == t <==> TailClean(t)
  {
    if |t| >= 4 {
      hide GroupDigits, GroupBytes, TailClean;
      FirstGroup(t);
      TailCleanLater(t);
      GroupCanonical(t[..4]);
      DigitsCanonical(t[4..]);
    } else if |t| >= 2 {
      GroupCanonical(t);
    }
  }

  /** Encoding what was decoded gives the text back exactly when the text is canonical: nothing but
      digits and the pads that belong there, and no stray bits. */
  lemma CanonicalRoundTrip(s: string)
    ensures Encoding(Decoding(s)) == s <==> Canonical(s)
  {
    hide Digits, DigitsValue, TailClean;
    var t := Body(s);
    var b := DigitsValue(t);
    var n := (3 - |b| % 3) % 3;
    DigitsCanonical(t);
    DigitsRoundTrip(b);
    BodyBeforePads(Digits(b), n);
    DigitsLength(b);
    PadCount(|b|);
  }
}
