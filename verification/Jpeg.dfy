/** Reading a JPEG's size from its headers, against the syntax of ITU-T T.81, sections B.1.1 and B.2.2. */
module Jpeg {
  type byte = x: int | 0 <= x < 256

  datatype Size = Found(width: nat, height: nat) | NotJpeg | NoFrame

  const SOI: seq<byte> := [0xFF, 0xD8]

  predicate IsFrame(m: byte) {
    0xC0 <= m <= 0xCF && m != 0xC4 && m != 0xC8 && m != 0xCC
  }

  /** End of image or start of scan: no header follows. */
  predicate EndsHeaders(m: byte) {
    m == 0xD9 || m == 0xDA
  }

  // ---------------------------------------------------------------- the syntax

  /** What may precede a marker: stray bytes, which are passed over, and then fill bytes. */
  datatype Lead = Lead(stray: seq<byte>, fill: nat)

  datatype Segment = Segment(lead: Lead, marker: byte, payload: seq<byte>)

  /** A frame header up to its width; `length` and `precision` are not looked at, `rest` is everything after it. */
  datatype Frame =
    Frame(lead: Lead, marker: byte, length: nat, precision: byte, height: nat, width: nat, rest: seq<byte>)

  predicate NoMarkers(bs: seq<byte>) {
    forall i :: 0 <= i < |bs| ==> bs[i] != 0xFF
  }

  predicate SegmentOk(s: Segment) {
    && NoMarkers(s.lead.stray)
    && s.marker != 0xFF && !IsFrame(s.marker) && !EndsHeaders(s.marker)
    && |s.payload| <= 0xFFFD
  }

  /** The header's own component count guarantees the byte after the width. */
  predicate FrameOk(f: Frame) {
    && NoMarkers(f.lead.stray) && IsFrame(f.marker)
    && f.length < 0x10000 && f.height < 0x10000 && f.width < 0x10000
    && f.rest != []
  }

  function Hi(n: nat): byte
    requires n < 0x10000
  {
    n / 0x100
  }

  function Lo(n: nat): byte {
    n % 0x100
  }

  function Fill(n: nat): seq<byte> {
    if n == 0 then [] else [0xFF] + Fill(n - 1)
  }

  function LeadBytes(l: Lead): seq<byte> {
    l.stray + Fill(l.fill)
  }

  function SegmentBody(s: Segment): seq<byte>
    requires SegmentOk(s)
  {
    [0xFF, s.marker, Hi(|s.payload| + 2), Lo(|s.payload| + 2)] + s.payload
  }

  function SegmentBytes(s: Segment): seq<byte>
    requires SegmentOk(s)
  {
    LeadBytes(s.lead) + SegmentBody(s)
  }

  function FrameBody(f: Frame): seq<byte>
    requires FrameOk(f)
  {
    [0xFF, f.marker, Hi(f.length), Lo(f.length), f.precision,
     Hi(f.height), Lo(f.height), Hi(f.width), Lo(f.width)] + f.rest
  }

  function FrameBytes(f: Frame): seq<byte>
    requires FrameOk(f)
  {
    LeadBytes(f.lead) + FrameBody(f)
  }

  predicate HeadersOk(segs: seq<Segment>, f: Frame) {
    FrameOk(f) && forall i :: 0 <= i < |segs| ==> SegmentOk(segs[i])
  }

  function Headers(segs: seq<Segment>, f: Frame): seq<byte>
    requires HeadersOk(segs, f)
  {
    if segs == [] then FrameBytes(f) else SegmentBytes(segs[0]) + Headers(segs[1..], f)
  }

  // ---------------------------------------------------------------- the parser

  function U16(hi: byte, lo: byte): nat {
    hi * 0x100 + lo
  }

  const SOF_MARKERS: set<byte> :=
    {0xC0, 0xC1, 0xC2, 0xC3, 0xC5, 0xC6, 0xC7, 0xC9, 0xCA, 0xCB, 0xCD, 0xCE, 0xCF}

  /** The listed markers are the frame markers: those from 0xC0 to 0xCF but for tables, extensions and conditioning. */
  lemma MarkersExactly()
    ensures forall m: byte :: m in SOF_MARKERS <==> IsFrame(m)
  {
  }

  /** What the loop does with the bytes from its index on. */
  function Scan(t: seq<byte>): Size {
    if |t| <= 9 then NoFrame
    else if t[0] != 0xFF || t[1] == 0xFF then Scan(t[1..])
    else if t[1] in SOF_MARKERS then Found(U16(t[7], t[8]), U16(t[5], t[6]))
    else if t[1] == 0xD9 || t[1] == 0xDA then NoFrame
    else
      var n := U16(t[2], t[3]);
      if n < 2 || 2 + n > |t| then NoFrame else Scan(t[2 + n..])
  }

  function Parse(data: seq<byte>): Size {
    if |data| < 2 || data[..2] != [0xFF, 0xD8] then NotJpeg else Scan(data[2..])
  }

  /** The source's test that four bytes are there for the length is implied by the loop's own condition. */
  method ParseJpegSize(data: seq<byte>) returns (r: Size)
    ensures r == Parse(data)
  {
    if |data| < 2 || data[0..2] != [0xFF, 0xD8] {
      return NotJpeg;
    }
    ghost var expected := Scan(data[2..]);
    var idx := 2;
    while idx + 9 < |data|
      invariant 0 <= idx
      invariant expected == if idx <= |data| then Scan(data[idx..]) else NoFrame
      decreases |data| - idx
    {
      if data[idx] != 0xFF {
        assert data[idx..][1..] == data[idx + 1..];
        idx := idx + 1;
        continue;
      }
      var marker := data[idx + 1];
      if marker == 0xFF {
        assert data[idx..][1..] == data[idx + 1..];
        idx := idx + 1;
        continue;
      }
      if marker in SOF_MARKERS {
        var h := U16(data[idx + 5], data[idx + 6]);
        var w := U16(data[idx + 7], data[idx + 8]);
        return Found(w, h);
      }
      if marker == 0xD9 || marker == 0xDA {
        break;
      }
      var segLen := U16(data[idx + 2], data[idx + 3]);
      if segLen < 2 {
        break;
      }
      if idx + 2 + segLen <= |data| {
        assert data[idx..][2 + segLen..] == data[idx + 2 + segLen..];
      }
      idx := idx + 2 + segLen;
    }
    return NoFrame;
  }

  /** A JPEG whose headers, up to and including the first frame header, are these. */
  ghost predicate Encodes(data: seq<byte>, segs: seq<Segment>, f: Frame) {
    HeadersOk(segs, f) && data == SOI + Headers(segs, f)
  }

  // ---------------------------------------------------------------- round trip

  lemma {:induction false} ScanStray(stray: seq<byte>, t: seq<byte>)
    requires NoMarkers(stray) && |t| > 9
    ensures Scan(stray + t) == Scan(t)
  {
    if stray == [] {
      assert stray + t == t;
    } else {
      assert (stray + t)[1..] == stray[1..] + t;
      ScanStray(stray[1..], t);
    }
  }

  lemma {:induction false} ScanFill(n: nat, t: seq<byte>)
    requires |t| > 9 && t[0] == 0xFF
    ensures Scan(Fill(n) + t) == Scan(t) && (Fill(n) + t)[0] == 0xFF
  {
    if n == 0 {
      assert Fill(n) + t == t;
    } else {
      assert (Fill(n) + t)[1..] == Fill(n - 1) + t;
      ScanFill(n - 1, t);
    }
  }

  lemma ScanLead(l: Lead, t: seq<byte>)
    requires NoMarkers(l.stray) && |t| > 9 && t[0] == 0xFF
    ensures Scan(LeadBytes(l) + t) == Scan(t)
  {
    assert LeadBytes(l) + t == l.stray + (Fill(l.fill) + t);
    ScanStray(l.stray, Fill(l.fill) + t);
    ScanFill(l.fill, t);
  }

  /** What the scan does at a marker, by the marker's kind. */
  lemma ScanMarker(t: seq<byte>)
    requires |t| > 9 && t[0] == 0xFF && t[1] != 0xFF
    ensures IsFrame(t[1]) ==> Scan(t) == Found(U16(t[7], t[8]), U16(t[5], t[6]))
    ensures !IsFrame(t[1]) && !EndsHeaders(t[1]) && 2 <= U16(t[2], t[3]) <= |t| - 2 ==>
              Scan(t) == Scan(t[2 + U16(t[2], t[3])..])
  {
    MarkersExactly();
  }

  lemma ScanSegment(s: Segment, t: seq<byte>)
    requires SegmentOk(s) && |t| > 9
    ensures Scan(SegmentBody(s) + t) == Scan(t)
  {
    hide Scan;
    ScanMarker(SegmentBody(s) + t);
    var b := SegmentBody(s) + t;
    assert b[2 + (|s.payload| + 2)..] == t;
  }

  lemma ScanSegmentBytes(s: Segment, t: seq<byte>)
    requires SegmentOk(s) && |t| > 9
    ensures Scan(SegmentBytes(s) + t) == Scan(t)
  {
    ScanSegment(s, t);
    ScanLead(s.lead, SegmentBody(s) + t);
    Associate(LeadBytes(s.lead), SegmentBody(s), t);
  }

  lemma ScanFrame(f: Frame)
    requires FrameOk(f)
    ensures |FrameBytes(f)| > 9 && Scan(FrameBytes(f)) == Found(f.width, f.height)
  {
    hide Scan;
    ScanLead(f.lead, FrameBody(f));
    ScanMarker(FrameBody(f));
  }

  lemma {:induction false} ScanHeaders(segs: seq<Segment>, f: Frame)
    requires HeadersOk(segs, f)
    ensures |Headers(segs, f)| > 9 && Scan(Headers(segs, f)) == Found(f.width, f.height)
  {
    if segs == [] {
      ScanFrame(f);
    } else {
      ScanHeaders(segs[1..], f);
      ScanSegmentBytes(segs[0], Headers(segs[1..], f));
    }
  }

  // ---------------------------------------------------------------- and back

  /** Adds a stray byte or a fill byte in front of the first marker. */
  function Preceded(l: Lead, b: byte): Lead {
    if b == 0xFF then l.(fill := l.fill + 1) else l.(stray := [b] + l.stray)
  }

  lemma PrecededBytes(l: Lead, b: byte)
    requires b == 0xFF ==> l.stray == []
    ensures LeadBytes(Preceded(l, b)) == [b] + LeadBytes(l)
  {
  }

  /** The first lead of a header list. */
  function FirstLead(segs: seq<Segment>, f: Frame): Lead {
    if segs == [] then f.lead else segs[0].lead
  }

  lemma FirstByte(segs: seq<Segment>, f: Frame)
    requires HeadersOk(segs, f) && FirstLead(segs, f).stray != []
    ensures Headers(segs, f) != [] && Headers(segs, f)[0] != 0xFF
  {
  }

  lemma Associate(a: seq<byte>, b: seq<byte>, c: seq<byte>)
    ensures a + (b + c) == a + b + c
  {
  }

  lemma PrependFrame(f: Frame, b: byte)
    requires FrameOk(f) && (b == 0xFF ==> f.lead.stray == [])
    ensures var f' := f.(lead := Preceded(f.lead, b)); FrameOk(f') && FrameBytes(f') == [b] + FrameBytes(f)
  {
    PrecededBytes(f.lead, b);
    Associate([b], LeadBytes(f.lead), FrameBody(f));
  }

  lemma PrependSegment(s: Segment, b: byte)
    requires SegmentOk(s) && (b == 0xFF ==> s.lead.stray == [])
    ensures var s' := s.(lead := Preceded(s.lead, b)); SegmentOk(s') && SegmentBytes(s') == [b] + SegmentBytes(s)
  {
    PrecededBytes(s.lead, b);
    Associate([b], LeadBytes(s.lead), SegmentBody(s));
  }

  lemma Prepend(segs: seq<Segment>, f: Frame, b: byte) returns (segs': seq<Segment>, f': Frame)
    requires HeadersOk(segs, f) && (b == 0xFF ==> FirstLead(segs, f).stray == [])
    ensures HeadersOk(segs', f') && Headers(segs', f') == [b] + Headers(segs, f)
  {
    hide FrameOk, SegmentOk, FrameBytes, SegmentBytes;
    if segs == [] {
      PrependFrame(f, b);
      segs', f' := [], f.(lead := Preceded(f.lead, b));
    } else {
      PrependSegment(segs[0], b);
      segs', f' := [segs[0].(lead := Preceded(segs[0].lead, b))] + segs[1..], f;
      assert segs'[1..] == segs[1..];
      Associate([b], SegmentBytes(segs[0]), Headers(segs[1..], f));
    }
  }

  lemma FrameRead(t: seq<byte>) returns (f: Frame)
    requires |t| > 9 && t[0] == 0xFF && IsFrame(t[1])
    ensures FrameOk(f) && FrameBytes(f) == t
  {
    f := Frame(Lead([], 0), t[1], U16(t[2], t[3]), t[4], U16(t[5], t[6]), U16(t[7], t[8]), t[9..]);
    NoLead();
    RejoinU16(t[2], t[3]);
    RejoinU16(t[5], t[6]);
    RejoinU16(t[7], t[8]);
    hide Hi, Lo, U16, LeadBytes, IsFrame;
    NineBytes(t);
  }

  lemma NoLead()
    ensures LeadBytes(Lead([], 0)) == []
  {
  }

  lemma SegmentBodyIs(s: Segment, hi: byte, lo: byte)
    requires SegmentOk(s) && |s.payload| + 2 == U16(hi, lo)
    ensures SegmentBody(s) == [0xFF, s.marker, hi, lo] + s.payload
  {
    RejoinU16(hi, lo);
  }

  lemma FourBytes(t: seq<byte>, n: nat)
    requires 4 <= n <= |t|
    ensures t[..n] == [t[0], t[1], t[2], t[3]] + t[4..n]
  {
  }

  lemma RejoinU16(hi: byte, lo: byte)
    ensures U16(hi, lo) < 0x10000 && Hi(U16(hi, lo)) == hi && Lo(U16(hi, lo)) == lo
  {
  }

  lemma NineBytes(t: seq<byte>)
    requires |t| > 9
    ensures t == [t[0], t[1], t[2], t[3], t[4], t[5], t[6], t[7], t[8]] + t[9..]
  {
  }

  lemma SegmentRead(t: seq<byte>) returns (s: Segment)
    requires |t| > 9 && t[0] == 0xFF && t[1] != 0xFF && !IsFrame(t[1]) && !EndsHeaders(t[1])
    requires 2 <= U16(t[2], t[3]) <= |t| - 2
    ensures SegmentOk(s) && SegmentBytes(s) == t[..2 + U16(t[2], t[3])]
  {
    hide U16, IsFrame, EndsHeaders, LeadBytes, SegmentBody;
    var n := U16(t[2], t[3]);
    s := Segment(Lead([], 0), t[1], t[4..2 + n]);
    RejoinU16(t[2], t[3]);
    NoLead();
    SegmentBodyIs(s, t[2], t[3]);
    FourBytes(t, 2 + n);
  }

  /** Whenever the scan finds a frame, the bytes are a list of segments followed by that frame header. */
  lemma {:induction false} Decompose(t: seq<byte>) returns (segs: seq<Segment>, f: Frame)
    requires Scan(t).Found?
    ensures HeadersOk(segs, f) && Headers(segs, f) == t
    decreases |t|
  {
    if t[0] != 0xFF || t[1] == 0xFF {
      segs, f := Decompose(t[1..]);
      if FirstLead(segs, f).stray != [] {
        FirstByte(segs, f);
      }
      segs, f := Prepend(segs, f, t[0]);
      assert t == [t[0]] + t[1..];
    } else if IsFrame(t[1]) {
      f := FrameRead(t);
      segs := [];
    } else {
      var n := U16(t[2], t[3]);
      var s := SegmentRead(t);
      var more, frame := Decompose(t[2 + n..]);
      segs, f := [s] + more, frame;
      assert segs[1..] == more;
      assert t == t[..2 + n] + t[2 + n..];
    }
  }

  /** The parser finds a frame exactly in the byte strings of that syntax, and reports that frame's size. */
  lemma ParseExact(data: seq<byte>)
    ensures Parse(data).Found? <==> exists segs, f :: Encodes(data, segs, f)
    ensures forall segs, f :: Encodes(data, segs, f) ==> Parse(data) == Found(f.width, f.height)
    ensures Parse(data).NotJpeg? <==> !(SOI <= data)
  {
    forall segs, f | Encodes(data, segs, f)
      ensures Parse(data) == Found(f.width, f.height)
    {
      assert data[..2] == SOI && data[2..] == Headers(segs, f);
      ScanHeaders(segs, f);
    }
    if SOI <= data {
      NeverNotJpeg(data[2..]);
    }
    if Parse(data).Found? {
      var segs, f := Decompose(data[2..]);
      assert data == SOI + data[2..];
      assert Encodes(data, segs, f);
    }
  }

  lemma {:induction false} NeverNotJpeg(t: seq<byte>)
    ensures !Scan(t).NotJpeg?
    decreases |t|
  {
    if |t| > 9 {
      if t[0] != 0xFF || t[1] == 0xFF {
        NeverNotJpeg(t[1..]);
      } else if 2 <= U16(t[2], t[3]) <= |t| - 2 {
        NeverNotJpeg(t[2 + U16(t[2], t[3])..]);
      }
    }
  }
}
