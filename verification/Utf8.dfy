/** UTF-8 (section 3 of RFC 3629), as far as etcd keys need it: encoding is invertible and respects prefixes. */
module Utf8 {
  import opened Options

  type Byte = b: int | 0 <= b < 256

  function EncodeChar(c: char): (r: seq<Byte>)
    ensures 1 <= |r| <= 4 && |r| == LeadLength(r[0])
    ensures forall i :: 0 <= i < |r| ==> r[i] < 0xF8
  {
    var n := c as int;
    var m := n / 0x40;
    var l := m / 0x40;
    if n < 0x80 then [n]
    else if n < 0x800 then [0xC0 + m, 0x80 + n % 0x40]
    else if n < 0x10000 then [0xE0 + l, 0x80 + m % 0x40, 0x80 + n % 0x40]
    else [0xF0 + l / 0x40, 0x80 + l % 0x40, 0x80 + m % 0x40, 0x80 + n % 0x40]
  }

  /** The length of the sequence a lead byte announces; 0 for a byte that cannot lead. */
  function LeadLength(b: Byte): nat {
    if b < 0x80 then 1 else if b < 0xC0 then 0 else if b < 0xE0 then 2 else if b < 0xF0 then 3
    else if b < 0xF8 then 4 else 0
  }

  function CodePoint(bs: seq<Byte>): int
    requires |bs| > 0 && |bs| == LeadLength(bs[0])
  {
    var lead: int := bs[0];
    if |bs| == 1 then lead
    else if |bs| == 2 then Append(lead - 0xC0, bs[1])
    else if |bs| == 3 then Append(Append(lead - 0xE0, bs[1]), bs[2])
    else Append(Append(Append(lead - 0xF0, bs[1]), bs[2]), bs[3])
  }

  /** One continuation byte adds six bits. */
  function Append(n: int, b: int): int {
    n * 0x40 + (b - 0x80)
  }

  lemma CodePointOfEncoded(c: char)
    ensures CodePoint(EncodeChar(c)) == c as int
  {
  }

  function Encode(s: string): (r: seq<Byte>)
    ensures forall i :: 0 <= i < |r| ==> r[i] < 0xF8
    ensures |r| >= |s|
  {
    if s == [] then [] else EncodeChar(s[0]) + Encode(s[1..])
  }

  predicate IsScalar(n: int) {
    0 <= n < 0xD800 || 0xE000 <= n < 0x110000
  }

  /** Strict decoding: an ill-formed or overlong sequence is an error. */
  function Decode(bs: seq<Byte>): Option<string>
    decreases |bs|
  {
    if bs == [] then Some([])
    else
      var n := LeadLength(bs[0]);
      if n == 0 || |bs| < n || !IsScalar(CodePoint(bs[..n])) then None
      else
        var c := CodePoint(bs[..n]) as char;
        var rest := Decode(bs[n..]);
        if EncodeChar(c) != bs[..n] || rest.None? then None else Some([c] + rest.value)
  }

  lemma IsScalarChar(c: char)
    ensures IsScalar(c as int)
  {
  }

  lemma DecodeCons(c: char, rest: seq<Byte>)
    requires Decode(rest).Some?
    ensures Decode(EncodeChar(c) + rest) == Some([c] + Decode(rest).value)
  {
    CodePointOfEncoded(c);
    IsScalarChar(c);
    var head := EncodeChar(c);
    var bs := head + rest;
    hide EncodeChar, CodePoint, IsScalar, LeadLength;
    assert bs[0] == head[0] && bs[..|head|] == head && bs[|head|..] == rest;
  }

  lemma {:induction false} DecodeEncode(s: string)
    ensures Decode(Encode(s)) == Some(s)
  {
    if s != [] {
      DecodeEncode(s[1..]);
      DecodeCons(s[0], Encode(s[1..]));
      hide Decode, EncodeChar;
      assert s == [s[0]] + s[1..];
    }
  }

  lemma DecodeFirst(bs: seq<Byte>) returns (n: nat, c: char)
    requires bs != [] && Decode(bs).Some?
    ensures 0 < n <= |bs| && EncodeChar(c) == bs[..n]
    ensures Decode(bs[n..]).Some? && Decode(bs).value == [c] + Decode(bs[n..]).value
  {
    hide EncodeChar;
    n := LeadLength(bs[0]);
    c := CodePoint(bs[..n]) as char;
  }

  lemma {:induction false} EncodeDecode(bs: seq<Byte>)
    requires Decode(bs).Some?
    ensures Encode(Decode(bs).value) == bs
    decreases |bs|
  {
    if bs != [] {
      var n, c := DecodeFirst(bs);
      hide EncodeChar, Decode, Encode;
      EncodeDecode(bs[n..]);
      EncodeCons(c, Decode(bs[n..]).value);
      Rejoined(bs, n);
    }
  }

  lemma EncodeCons(c: char, s: string)
    ensures Encode([c] + s) == EncodeChar(c) + Encode(s)
  {
    assert ([c] + s)[1..] == s;
  }

  lemma Rejoined(bs: seq<Byte>, n: nat)
    requires n <= |bs|
    ensures bs[..n] + bs[n..] == bs
  {
  }

  /** Decoding is strict: it succeeds on the encodings of texts and on nothing else. */
  lemma DecodeExactly(bs: seq<Byte>, s: string)
    ensures Decode(bs) == Some(s) <==> bs == Encode(s)
  {
    DecodeEncode(s);
    if Decode(bs).Some? {
      EncodeDecode(bs);
    }
  }

  /** One character of each length, from the examples in section 7 of RFC 3629. */
  lemma StandardExamples()
    ensures EncodeChar('A') == [0x41] && EncodeChar('\U{0391}') == [0xCE, 0x91]
    ensures EncodeChar('\U{2262}') == [0xE2, 0x89, 0xA2] && EncodeChar('\U{233B4}') == [0xF0, 0xA3, 0x8E, 0xB4]
  {
  }

  lemma {:induction false} EncodeConcat(s: string, t: string)
    ensures Encode(s + t) == Encode(s) + Encode(t)
  {
    if s == [] {
      assert s + t == t;
    } else {
      assert (s + t)[1..] == s[1..] + t;
      EncodeConcat(s[1..], t);
    }
  }

  lemma {:induction false} EncodeReflectsPrefix(p: string, k: string)
    requires Encode(p) <= Encode(k)
    ensures p <= k
  {
    if p != [] {
      assert Encode(p)[0] == Encode(k)[0];
      var hp, hk := EncodeChar(p[0]), EncodeChar(k[0]);
      assert Encode(p)[..|hp|] == hp && Encode(k)[..|hk|] == hk;
      assert Encode(p)[|hp|..] == Encode(p[1..]) && Encode(k)[|hk|..] == Encode(k[1..]);
      assert |hp| == |hk|;
      assert hp == Encode(p)[..|hp|] == Encode(k)[..|hp|] == hk;
      CodePointOfEncoded(p[0]);
      CodePointOfEncoded(k[0]);
      EncodeReflectsPrefix(p[1..], k[1..]);
    }
  }

  /** A key starts with a prefix exactly when its bytes start with the prefix's bytes. */
  lemma PrefixIffBytePrefix(p: string, k: string)
    ensures p <= k <==> Encode(p) <= Encode(k)
  {
    if p <= k {
      EncodeConcat(p, k[|p|..]);
      assert k == p + k[|p|..];
    }
    if Encode(p) <= Encode(k) {
      EncodeReflectsPrefix(p, k);
    }
  }

  lemma EncodeInjective(s: string, t: string)
    requires Encode(s) == Encode(t)
    ensures s == t
  {
    DecodeEncode(s);
    DecodeEncode(t);
  }
}
