/** The codec's loops: buffers are filled from the back, fields are read by
    index.  Each method is proved to write or read what the message functions
    say. */
module Codec {
  import opened Wrappers
  import opened Wire
  import opened Messages

  // ---------------------------------------------------------------------
  // Writing
  // ---------------------------------------------------------------------

  /** `b` with the bytes from `i` to `end` replaced by `s`. */
  function Splice(b: bytes, i: nat, end: nat, s: bytes): (r: bytes)
    requires i <= end <= |b|
    ensures |r| == |b| - (end - i) + |s|
  {
    b[..i] + s + b[end..]
  }

  lemma SpliceAt(b: bytes, i: nat, end: nat, s: bytes)
    requires i <= end <= |b| && |s| == end - i
    ensures Splice(b, i, end, s)[i..end] == s
  {
  }

  /** Writing `s` and then `t` before it is writing `t + s`. */
  lemma SpliceTwice(b: bytes, j: nat, i: nat, end: nat, t: bytes, s: bytes)
    requires j <= i <= end <= |b| && |s| == end - i && |t| == i - j
    ensures Splice(Splice(b, i, end, s), j, i, t) == Splice(b, j, end, t + s)
  {
    var c := Splice(b, i, end, s);
    assert c[..j] == b[..j];
    assert c[i..] == s + b[end..];
  }

  lemma SpliceNothing(b: bytes, i: nat)
    requires i <= |b|
    ensures Splice(b, i, i, []) == b
  {
  }

  /** Writes the varint of `v` so that it ends before `offset`. */
  method EncodeVarint(buf: array<byte>, offset: nat, v: nat) returns (start: nat)
    requires Sov(v) <= offset <= buf.Length
    modifies buf
    ensures start == offset - Sov(v) == offset - |Varint(v)|
    ensures buf[..] == Splice(old(buf[..]), start, offset, Varint(v))
  {
    hide Varint, Sov, Splice;
    SovIsLength(v);
    start := offset - Sov(v);
    var rest, i := v, start;
    ghost var written: bytes := [];
    assert written + Varint(v) == Varint(v);
    while rest >= 128
      invariant start <= i && i + |Varint(rest)| == offset
      invariant buf[start..i] == written && written + Varint(rest) == Varint(v)
      invariant buf[..start] == old(buf[..start]) && buf[offset..] == old(buf[offset..])
    {
      VarintStep(written, rest, Varint(v));
      buf[i] := rest % 128 + 128;
      assert buf[start..i + 1] == written + [rest % 128 + 128];
      written := written + [rest % 128 + 128];
      rest, i := rest / 128, i + 1;
    }
    VarintLast(rest);
    buf[i] := rest;
    assert buf[start..offset] == written + [rest];
    Assembled(old(buf[..]), buf[..], start, offset, Varint(v));
  }

  lemma VarintStep(written: bytes, rest: nat, all: bytes)
    requires rest >= 128 && written + Varint(rest) == all
    ensures |Varint(rest)| == 1 + |Varint(rest / 128)| && |Varint(rest / 128)| > 0
    ensures written + [rest % 128 + 128] + Varint(rest / 128) == all
  {
    assert Varint(rest) == [rest % 128 + 128] + Varint(rest / 128);
  }

  lemma VarintLast(rest: nat)
    requires rest < 128
    ensures Varint(rest) == [rest]
  {
  }

  /** A buffer that differs from another between two points only. */
  lemma Assembled(b: bytes, c: bytes, i: nat, end: nat, s: bytes)
    requires i <= end <= |b| == |c| && c[i..end] == s && c[..i] == b[..i] && c[end..] == b[end..]
    ensures c == Splice(b, i, end, s)
  {
    assert c == c[..i] + c[i..end] + c[end..];
  }

  /** Copies `s` so that it ends before `end`. */
  method PutBytes(buf: array<byte>, end: nat, s: bytes) returns (start: nat)
    requires |s| <= end <= buf.Length
    modifies buf
    ensures start == end - |s|
    ensures buf[..] == Splice(old(buf[..]), start, end, s)
  {
    start := end - |s|;
    forall t | 0 <= t < |s| {
      buf[start + t] := s[t];
    }
    assert buf[..] == buf[..start] + buf[start..end] + buf[end..];
    assert buf[start..end] == s;
  }

  /** The tag and length of a payload that lies before `end` already. */
  method PutHead(buf: array<byte>, end: nat, size: nat, tag: byte) returns (i: nat)
    requires FieldSize(size) <= end <= buf.Length
    modifies buf
    ensures i == end - FieldSize(size)
    ensures var p := old(buf[end - size..end]);
            |LenField(tag, p)| == FieldSize(size) && buf[..] == Splice(old(buf[..]), i, end, LenField(tag, p))
  {
    ghost var b, p := buf[..], buf[end - size..end];
    LenFieldSize(tag, p);
    i := EncodeVarint(buf, end - size, size);
    ghost var mid := buf[..];
    i := i - 1;
    buf[i] := tag;
    assert buf[..] == mid[..i] + [tag] + mid[i + 1..];
    HeadLayout(b, mid, i, end, size, tag);
  }

  /** Tag, length and payload lie next to one another. */
  lemma HeadLayout(b: bytes, mid: bytes, i: nat, end: nat, size: nat, tag: byte)
    requires i < end - size && end <= |b| && i + 1 + |Varint(size)| == end - size
    requires mid == Splice(b, i + 1, end - size, Varint(size))
    ensures mid[..i] + [tag] + mid[i + 1..] == Splice(b, i, end, LenField(tag, b[end - size..end]))
  {
    hide Varint;
    assert mid[..i] == b[..i];
    assert mid[i + 1..] == Varint(size) + b[end - size..];
    assert b[end - size..] == b[end - size..end] + b[end..];
  }

  /** A string field that ends before `end`; nothing for an empty string. */
  method PutString(buf: array<byte>, end: nat, tag: byte, s: bytes) returns (i: nat)
    requires StringSize(s) <= end <= buf.Length
    modifies buf
    ensures i == end - StringSize(s) == end - |StringField(tag, s)|
    ensures buf[..] == Splice(old(buf[..]), i, end, StringField(tag, s))
  {
    hide Splice, LenField, Sov;
    i := end;
    if |s| > 0 {
      ghost var b := buf[..];
      i := PutBytes(buf, end, s);
      SpliceAt(b, end - |s|, end, s);
      assert buf[end - |s|..end] == buf[..][end - |s|..end];
      i := PutHead(buf, end, |s|, tag);
      Respliced(b, i, end, s, LenField(tag, s));
    } else {
      SpliceNothing(buf[..], end);
    }
  }

  /** Overwriting a stretch that was just written leaves no trace of it. */
  lemma Respliced(b: bytes, i: nat, end: nat, p: bytes, f: bytes)
    requires i <= end - |p| && end <= |b| && |f| == end - i
    ensures Splice(Splice(b, end - |p|, end, p), i, end, f) == Splice(b, i, end, f)
  {
    var c := Splice(b, end - |p|, end, p);
    assert c[..i] == b[..i];
  }

  /** MarshalToSizedBuffer for the bytes before `end`: the encoding is written
      there, exactly as long as Size says, and no other byte changes. */
  method MarshalGVK(m: GVK, buf: array<byte>, end: nat) returns (i: nat)
    requires SizeGVK(m) <= end <= buf.Length
    modifies buf
    ensures i == end - SizeGVK(m) == end - |EncodeGVK(m)|
    ensures buf[..] == Splice(old(buf[..]), i, end, EncodeGVK(m))
  {
    hide StringField, Splice;
    ghost var b := buf[..];
    var i0 := PutBytes(buf, end, m.unrecognized);
    var i1 := PutString(buf, i0, 0x1a, m.kind);
    ghost var s1 := StringField(0x1a, m.kind) + m.unrecognized;
    SpliceTwice(b, i1, i0, end, StringField(0x1a, m.kind), m.unrecognized);
    var i2 := PutString(buf, i1, 0x12, m.version);
    ghost var s2 := StringField(0x12, m.version) + s1;
    SpliceTwice(b, i2, i1, end, StringField(0x12, m.version), s1);
    i := PutString(buf, i2, 0x0a, m.group);
    SpliceTwice(b, i, i2, end, StringField(0x0a, m.group), s2);
    assert StringField(0x0a, m.group) + s2 == EncodeGVK(m);
  }

  method MarshalNSN(m: NSN, buf: array<byte>, end: nat) returns (i: nat)
    requires SizeNSN(m) <= end <= buf.Length
    modifies buf
    ensures i == end - SizeNSN(m) == end - |EncodeNSN(m)|
    ensures buf[..] == Splice(old(buf[..]), i, end, EncodeNSN(m))
  {
    hide StringField, Splice;
    ghost var b := buf[..];
    var i0 := PutBytes(buf, end, m.unrecognized);
    var i1 := PutString(buf, i0, 0x12, m.name);
    ghost var s1 := StringField(0x12, m.name) + m.unrecognized;
    SpliceTwice(b, i1, i0, end, StringField(0x12, m.name), m.unrecognized);
    i := PutString(buf, i1, 0x0a, m.namespace);
    SpliceTwice(b, i, i1, end, StringField(0x0a, m.namespace), s1);
    assert StringField(0x0a, m.namespace) + s1 == EncodeNSN(m);
  }

  /** A nested part, marshalled in place and then given its length and tag. */
  method PutGVK(buf: array<byte>, end: nat, tag: byte, m: Option<GVK>) returns (i: nat)
    requires |GvkField(tag, m)| <= end <= buf.Length
    modifies buf
    ensures i == end - |GvkField(tag, m)|
    ensures buf[..] == Splice(old(buf[..]), i, end, GvkField(tag, m))
  {
    hide Splice, LenField, Sov, EncodeGVK, SizeGVK;
    i := end;
    if m.Some? {
      GvkFieldSize(tag, m);
      SizeGVKExact(m.value);
      ghost var b, p := buf[..], EncodeGVK(m.value);
      i := MarshalGVK(m.value, buf, end);
      SpliceAt(b, end - |p|, end, p);
      assert buf[end - |p|..end] == buf[..][end - |p|..end];
      i := PutHead(buf, end, end - i, tag);
      Respliced(b, i, end, p, LenField(tag, p));
    } else {
      SpliceNothing(buf[..], end);
    }
  }

  method PutNSN(buf: array<byte>, end: nat, tag: byte, m: Option<NSN>) returns (i: nat)
    requires |NsnField(tag, m)| <= end <= buf.Length
    modifies buf
    ensures i == end - |NsnField(tag, m)|
    ensures buf[..] == Splice(old(buf[..]), i, end, NsnField(tag, m))
  {
    hide Splice, LenField, Sov, EncodeNSN, SizeNSN;
    i := end;
    if m.Some? {
      NsnFieldSize(tag, m);
      SizeNSNExact(m.value);
      ghost var b, p := buf[..], EncodeNSN(m.value);
      i := MarshalNSN(m.value, buf, end);
      SpliceAt(b, end - |p|, end, p);
      assert buf[end - |p|..end] == buf[..][end - |p|..end];
      i := PutHead(buf, end, end - i, tag);
      Respliced(b, i, end, p, LenField(tag, p));
    } else {
      SpliceNothing(buf[..], end);
    }
  }

  method MarshalHeader(m: Header, buf: array<byte>, end: nat) returns (i: nat)
    requires SizeHeader(m) <= end <= buf.Length
    modifies buf
    ensures i == end - SizeHeader(m) == end - |EncodeHeader(m)|
    ensures buf[..] == Splice(old(buf[..]), i, end, EncodeHeader(m))
  {
    hide GvkField, NsnField, Splice, SizeHeader;
    SizeHeaderExact(m);
    ghost var b := buf[..];
    ghost var g1, n1 := GvkField(0x0a, m.gvk), NsnField(0x12, m.nsn);
    ghost var g2, n2 := GvkField(0x1a, m.ownerGvk), NsnField(0x22, m.ownerNsn);
    var i0 := PutBytes(buf, end, m.unrecognized);
    var i1 := PutNSN(buf, i0, 0x22, m.ownerNsn);
    SpliceTwice(b, i1, i0, end, n2, m.unrecognized);
    var i2 := PutGVK(buf, i1, 0x1a, m.ownerGvk);
    SpliceTwice(b, i2, i1, end, g2, n2 + m.unrecognized);
    var i3 := PutNSN(buf, i2, 0x12, m.nsn);
    SpliceTwice(b, i3, i2, end, n1, g2 + (n2 + m.unrecognized));
    i := PutGVK(buf, i3, 0x0a, m.gvk);
    SpliceTwice(b, i, i3, end, g1, n1 + (g2 + (n2 + m.unrecognized)));
    assert g1 + (n1 + (g2 + (n2 + m.unrecognized))) == EncodeHeader(m);
  }

  /** Marshal: a fresh buffer of exactly Size bytes, filled completely, that
      unmarshals to the message. */
  method MarshalFresh(m: Header) returns (d: bytes)
    ensures d == EncodeHeader(m) && |d| == SizeHeader(m)
    ensures HeaderOk(m) && |d| < NEGATIVE ==> UnmarshalHeader(NO_HEADER, d) == Ok(m)
  {
    var size := SizeHeader(m);
    var buf := new byte[size];
    SizeHeaderExact(m);
    var i := MarshalHeader(m, buf, size);
    d := buf[..];
    assert d == EncodeHeader(m);
    if HeaderOk(m) && |d| < NEGATIVE {
      RoundTripHeader(m);
    }
  }

  // ---------------------------------------------------------------------
  // Reading
  // ---------------------------------------------------------------------

  /** The varint loop. */
  method DecodeVarint(d: bytes, start: nat) returns (r: Result<(nat, nat), WireError>)
    ensures r == ReadVarint(d, start)
  {
    var wire: nat, shift: nat, i := 0, 0, start;
    while true
      invariant start <= i && shift == 7 * (i - start) && shift <= 70
      invariant ReadVarint(d, start) == ReadVarintFrom(d, start, i, wire)
      decreases 70 - shift
    {
      if shift >= 64 {
        return Err(IntOverflow);
      }
      if i >= |d| {
        return Err(UnexpectedEOF);
      }
      var b := d[i];
      i := i + 1;
      wire := wire + Bits(b, shift);
      if b < 128 {
        return Ok((wire, i));
      }
      shift := shift + 7;
    }
  }

  /** skipResource. */
  method SkipResource(d: bytes, base: nat) returns (r: Result<nat, WireError>)
    ensures r == SkipFrom(d, base, base, 0)
  {
    hide ReadVarint;
    var i, depth := base, 0;
    while i < |d|
      invariant base <= i
      invariant SkipFrom(d, base, base, 0) == SkipFrom(d, base, i, depth)
      decreases |d| - i
    {
      var t := DecodeVarint(d, i);
      if t.Err? {
        return Err(t.error);
      }
      var (tag, n) := t.value;
      i := n;
      match tag % 8 {
        case 0 =>
          t := DecodeVarint(d, i);
          if t.Err? {
            return Err(t.error);
          }
          i := t.value.1;
        case 1 => i := i + 8;
        case 2 =>
          t := DecodeVarint(d, i);
          if t.Err? {
            return Err(t.error);
          }
          if t.value.0 >= NEGATIVE {
            return Err(InvalidLength);
          }
          i := t.value.1 + t.value.0;
        case 3 => depth := depth + 1;
        case 4 =>
          if depth == 0 {
            return Err(UnexpectedEndOfGroup);
          }
          depth := depth - 1;
        case 5 => i := i + 4;
        case _ => return Err(IllegalWireType);
      }
      if i - base >= NEGATIVE {
        return Err(InvalidLength);
      }
      if depth == 0 {
        return Ok(i);
      }
    }
    return Err(UnexpectedEOF);
  }

  /** The part of every Unmarshal loop that finds the next field. */
  method ReadRecord(d: bytes, i: nat, known: nat) returns (r: Result<(Record, nat), WireError>)
    ensures r == NextRecord(d, i, known)
  {
    hide ReadVarint, SkipFrom;
    var t := DecodeVarint(d, i);
    if t.Err? {
      return Err(t.error);
    }
    var (tag, n) := t.value;
    var num := FieldNumber(tag);
    if tag % 8 == 4 {
      return Err(EndGroup);
    }
    if num <= 0 {
      return Err(IllegalTag);
    }
    if num <= known {
      if tag % 8 != 2 {
        return Err(WrongWireType);
      }
      t := DecodeVarint(d, n);
      if t.Err? {
        return Err(t.error);
      }
      var (length, s) := t.value;
      if length >= NEGATIVE || s + length >= NEGATIVE {
        return Err(InvalidLength);
      }
      if s + length > |d| {
        return Err(UnexpectedEOF);
      }
      return Ok((Known(num, d[s..s + length]), s + length));
    }
    var skipped := SkipResource(d, i);
    if skipped.Err? {
      return Err(skipped.error);
    }
    var next := skipped.value;
    if next >= NEGATIVE {
      return Err(InvalidLength);
    }
    if next > |d| {
      return Err(UnexpectedEOF);
    }
    return Ok((Unknown(d[i..next]), next));
  }

  /** Unmarshal of a GVK into what `start` holds. */
  method DecodeGVK(start: GVK, d: bytes) returns (r: Result<GVK, WireError>)
    ensures r == UnmarshalGVK(start, d)
  {
    hide NextRecord;
    var m, i := start, 0;
    while i < |d|
      invariant 0 <= i <= |d|
      invariant UnmarshalGVK(start, d) == Decode(3, ApplyGVK, m, d, i)
      decreases |d| - i
    {
      var t := ReadRecord(d, i, 3);
      if t.Err? {
        return Err(t.error);
      }
      var (rec, n) := t.value;
      match rec {
        case Known(num, p) =>
          if num == 1 {
            m := m.(group := p);
          } else if num == 2 {
            m := m.(version := p);
          } else {
            m := m.(kind := p);
          }
        case Unknown(raw) => m := m.(unrecognized := m.unrecognized + raw);
      }
      i := n;
    }
    return Ok(m);
  }

  method DecodeNSN(start: NSN, d: bytes) returns (r: Result<NSN, WireError>)
    ensures r == UnmarshalNSN(start, d)
  {
    hide NextRecord;
    var m, i := start, 0;
    while i < |d|
      invariant 0 <= i <= |d|
      invariant UnmarshalNSN(start, d) == Decode(2, ApplyNSN, m, d, i)
      decreases |d| - i
    {
      var t := ReadRecord(d, i, 2);
      if t.Err? {
        return Err(t.error);
      }
      var (rec, n) := t.value;
      match rec {
        case Known(num, p) =>
          if num == 1 {
            m := m.(namespace := p);
          } else {
            m := m.(name := p);
          }
        case Unknown(raw) => m := m.(unrecognized := m.unrecognized + raw);
      }
      i := n;
    }
    return Ok(m);
  }

  /** Unmarshal of a Header into what `start` holds. */
  method DecodeHeader(start: Header, d: bytes) returns (r: Result<Header, WireError>)
    ensures r == UnmarshalHeader(start, d)
  {
    hide NextRecord, UnmarshalGVK, UnmarshalNSN;
    var m, i := start, 0;
    while i < |d|
      invariant 0 <= i <= |d|
      invariant UnmarshalHeader(start, d) == Decode(4, ApplyHeader, m, d, i)
      decreases |d| - i
    {
      var t := ReadRecord(d, i, 4);
      if t.Err? {
        return Err(t.error);
      }
      var (rec, n) := t.value;
      match rec {
        case Known(num, p) =>
          if num == 1 || num == 3 {
            var part := if num == 1 then m.gvk else m.ownerGvk;
            var g := DecodeGVK(if part.Some? then part.value else NO_GVK, p);
            if g.Err? {
              return Err(g.error);
            }
            m := if num == 1 then m.(gvk := Some(g.value)) else m.(ownerGvk := Some(g.value));
          } else {
            var part := if num == 2 then m.nsn else m.ownerNsn;
            var g := DecodeNSN(if part.Some? then part.value else NO_NSN, p);
            if g.Err? {
              return Err(g.error);
            }
            m := if num == 2 then m.(nsn := Some(g.value)) else m.(ownerNsn := Some(g.value));
          }
        case Unknown(raw) => m := m.(unrecognized := m.unrecognized + raw);
      }
      i := n;
    }
    return Ok(m);
  }
}
