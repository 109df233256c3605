/** The messages GVK, NSN and Header: their encodings, their decoders, and that
    the two are inverse, unknown fields and presence of nested parts included. */
module Messages {
  import opened Wrappers
  import opened Wire

  datatype GVK = GVK(group: bytes, version: bytes, kind: bytes, unrecognized: bytes)

  datatype NSN = NSN(namespace: bytes, name: bytes, unrecognized: bytes)

  /** Absent parts are nil pointers. */
  datatype Header = Header(
    gvk: Option<GVK>, nsn: Option<NSN>,
    ownerGvk: Option<GVK>, ownerNsn: Option<NSN>,
    unrecognized: bytes)

  const NO_GVK := GVK([], [], [], [])
  const NO_NSN := NSN([], [], [])
  const NO_HEADER := Header(None, None, None, None, [])

  // ---------------------------------------------------------------------
  // Encoding
  // ---------------------------------------------------------------------

  /** Empty strings are not written. */
  function StringField(tag: byte, s: bytes): bytes {
    if s == [] then [] else LenField(tag, s)
  }

  function EncodeGVK(m: GVK): bytes {
    StringField(0x0a, m.group) + StringField(0x12, m.version) + StringField(0x1a, m.kind) + m.unrecognized
  }

  function EncodeNSN(m: NSN): bytes {
    StringField(0x0a, m.namespace) + StringField(0x12, m.name) + m.unrecognized
  }

  function GvkField(tag: byte, m: Option<GVK>): bytes {
    if m.Some? then LenField(tag, EncodeGVK(m.value)) else []
  }

  function NsnField(tag: byte, m: Option<NSN>): bytes {
    if m.Some? then LenField(tag, EncodeNSN(m.value)) else []
  }

  function EncodeHeader(m: Header): bytes {
    GvkField(0x0a, m.gvk) + NsnField(0x12, m.nsn) + GvkField(0x1a, m.ownerGvk) + NsnField(0x22, m.ownerNsn)
    + m.unrecognized
  }

  // ---------------------------------------------------------------------
  // Sizes
  // ---------------------------------------------------------------------

  function FieldSize(l: nat): nat {
    1 + l + Sov(l)
  }

  function StringSize(s: bytes): nat {
    if |s| > 0 then FieldSize(|s|) else 0
  }

  function SizeGVK(m: GVK): nat {
    StringSize(m.group) + StringSize(m.version) + StringSize(m.kind) + |m.unrecognized|
  }

  function SizeNSN(m: NSN): nat {
    StringSize(m.namespace) + StringSize(m.name) + |m.unrecognized|
  }

  function SizeHeader(m: Header): nat {
    (if m.gvk.Some? then FieldSize(SizeGVK(m.gvk.value)) else 0)
    + (if m.nsn.Some? then FieldSize(SizeNSN(m.nsn.value)) else 0)
    + (if m.ownerGvk.Some? then FieldSize(SizeGVK(m.ownerGvk.value)) else 0)
    + (if m.ownerNsn.Some? then FieldSize(SizeNSN(m.ownerNsn.value)) else 0)
    + |m.unrecognized|
  }

  lemma LenFieldSize(tag: byte, p: bytes)
    ensures |LenField(tag, p)| == FieldSize(|p|)
  {
    SovIsLength(|p|);
  }

  lemma SizeGVKExact(m: GVK)
    ensures |EncodeGVK(m)| == SizeGVK(m)
  {
    LenFieldSize(0x0a, m.group);
    LenFieldSize(0x12, m.version);
    LenFieldSize(0x1a, m.kind);
  }

  lemma SizeNSNExact(m: NSN)
    ensures |EncodeNSN(m)| == SizeNSN(m)
  {
    LenFieldSize(0x0a, m.namespace);
    LenFieldSize(0x12, m.name);
  }

  lemma GvkFieldSize(tag: byte, m: Option<GVK>)
    ensures |GvkField(tag, m)| == if m.Some? then FieldSize(SizeGVK(m.value)) else 0
  {
    hide EncodeGVK, SizeGVK, LenField;
    if m.Some? {
      SizeGVKExact(m.value);
      LenFieldSize(tag, EncodeGVK(m.value));
    }
  }

  lemma NsnFieldSize(tag: byte, m: Option<NSN>)
    ensures |NsnField(tag, m)| == if m.Some? then FieldSize(SizeNSN(m.value)) else 0
  {
    hide EncodeNSN, SizeNSN, LenField;
    if m.Some? {
      SizeNSNExact(m.value);
      LenFieldSize(tag, EncodeNSN(m.value));
    }
  }

  /** Size is the exact length of the encoding. */
  lemma SizeHeaderExact(m: Header)
    ensures |EncodeHeader(m)| == SizeHeader(m)
  {
    hide SizeGVK, SizeNSN, GvkField, NsnField, FieldSize;
    GvkFieldSize(0x0a, m.gvk);
    NsnFieldSize(0x12, m.nsn);
    GvkFieldSize(0x1a, m.ownerGvk);
    NsnFieldSize(0x22, m.ownerNsn);
  }

  // ---------------------------------------------------------------------
  // Decoding
  // ---------------------------------------------------------------------

  /** The decoding loop of a message with `known` fields: every record is applied
      to what has been gathered. */
  function Decode<M>(known: nat, apply: (M, Record) -> Result<M, WireError>, m: M, d: bytes, i: nat)
    : Result<M, WireError>
    requires i <= |d|
    decreases |d| - i
  {
    if i == |d| then Ok(m)
    else
      match NextRecord(d, i, known)
      case Err(e) => Err(e)
      case Ok((r, n)) =>
        match apply(m, r)
        case Err(e) => Err(e)
        case Ok(m') => Decode(known, apply, m', d, n)
  }

  function ApplyGVK(m: GVK, r: Record): Result<GVK, WireError> {
    match r
    case Unknown(raw) => Ok(m.(unrecognized := m.unrecognized + raw))
    case Known(num, p) =>
      Ok(if num == 1 then m.(group := p) else if num == 2 then m.(version := p) else m.(kind := p))
  }

  function ApplyNSN(m: NSN, r: Record): Result<NSN, WireError> {
    match r
    case Unknown(raw) => Ok(m.(unrecognized := m.unrecognized + raw))
    case Known(num, p) =>
      Ok(if num == 1 then m.(namespace := p) else m.(name := p))
  }

  function UnmarshalGVK(m: GVK, d: bytes): Result<GVK, WireError> {
    Decode(3, ApplyGVK, m, d, 0)
  }

  function UnmarshalNSN(m: NSN, d: bytes): Result<NSN, WireError> {
    Decode(2, ApplyNSN, m, d, 0)
  }

  /** A nested part is merged into what is there already. */
  function MergeGVK(part: Option<GVK>, p: bytes): Result<GVK, WireError> {
    UnmarshalGVK(if part.Some? then part.value else NO_GVK, p)
  }

  function MergeNSN(part: Option<NSN>, p: bytes): Result<NSN, WireError> {
    UnmarshalNSN(if part.Some? then part.value else NO_NSN, p)
  }

  function ApplyHeader(m: Header, r: Record): Result<Header, WireError> {
    match r
    case Unknown(raw) => Ok(m.(unrecognized := m.unrecognized + raw))
    case Known(num, p) =>
      if num == 1 then
        match MergeGVK(m.gvk, p) case Err(e) => Err(e) case Ok(g) => Ok(m.(gvk := Some(g)))
      else if num == 2 then
        match MergeNSN(m.nsn, p) case Err(e) => Err(e) case Ok(g) => Ok(m.(nsn := Some(g)))
      else if num == 3 then
        match MergeGVK(m.ownerGvk, p) case Err(e) => Err(e) case Ok(g) => Ok(m.(ownerGvk := Some(g)))
      else
        match MergeNSN(m.ownerNsn, p) case Err(e) => Err(e) case Ok(g) => Ok(m.(ownerNsn := Some(g)))
  }

  function UnmarshalHeader(m: Header, d: bytes): Result<Header, WireError> {
    Decode(4, ApplyHeader, m, d, 0)
  }

  // ---------------------------------------------------------------------
  // Concatenation is merging
  // ---------------------------------------------------------------------

  /** Decoding the rest of `d` elsewhere, with more bytes behind it, goes on from
      where decoding `d` ended. */
  lemma {:induction false} DecodeMoves<M>(known: nat, apply: (M, Record) -> Result<M, WireError>,
                                          m: M, d: bytes, i: nat, e: bytes, j: nat)
    requires i <= |d| && |e| < NEGATIVE && Agree(d, i, e, j, |d| - i)
    requires Decode(known, apply, m, d, i).Ok?
    ensures Decode(known, apply, m, e, j) ==
            Decode(known, apply, Decode(known, apply, m, d, i).value, e, j + (|d| - i))
    decreases |d| - i
  {
    hide NextRecord;
    if i < |d| {
      var (r, n) := NextRecord(d, i, known).value;
      AgreeTail(d, i, e, j, |d| - i, 0, n - i);
      NextRecordMoves(d, i, e, j, known);
      AgreeTail(d, i, e, j, |d| - i, n - i, |d| - n);
      DecodeMoves(known, apply, apply(m, r).value, d, n, e, j + (n - i));
    }
  }

  /** Decoding two encodings after one another is decoding their concatenation. */
  lemma DecodeConcat<M>(known: nat, apply: (M, Record) -> Result<M, WireError>, m: M, a: bytes, b: bytes)
    requires |a + b| < NEGATIVE && Decode(known, apply, m, a, 0).Ok?
    requires Decode(known, apply, Decode(known, apply, m, a, 0).value, b, 0).Ok?
    ensures Decode(known, apply, m, a + b, 0) ==
            Decode(known, apply, Decode(known, apply, m, a, 0).value, b, 0)
  {
    hide Decode;
    var m1 := Decode(known, apply, m, a, 0).value;
    AgreeIsSlice(a, 0, a + b, 0, |a|);
    assert a[0..|a|] == (a + b)[0..|a|];
    DecodeMoves(known, apply, m, a, 0, a + b, 0);
    AgreeIsSlice(b, 0, a + b, |a|, |b|);
    assert b[0..|b|] == (a + b)[|a|..|a| + |b|];
    DecodeMoves(known, apply, m1, b, 0, a + b, |a|);
    DecodeEnd(known, apply, Decode(known, apply, m1, b, 0).value, a + b);
  }

  lemma DecodeEnd<M>(known: nat, apply: (M, Record) -> Result<M, WireError>, m: M, d: bytes)
    ensures Decode(known, apply, m, d, |d|) == Ok(m)
  {
  }

  /** A single field is applied. */
  lemma DecodeField<M>(known: nat, apply: (M, Record) -> Result<M, WireError>, m: M, num: nat, p: bytes)
    requires 1 <= num <= known && num < 16 && |LenField(8 * num + 2, p)| < NEGATIVE
    ensures Decode(known, apply, m, LenField(8 * num + 2, p), 0) == apply(m, Known(num, p))
  {
    hide NextRecord, LenField;
    var f := LenField(8 * num + 2, p);
    assert f[0..|f|] == f;
    FieldIsNext(f, 0, num, p, known);
  }

  // ---------------------------------------------------------------------
  // Unknown fields
  // ---------------------------------------------------------------------

  /** From `i` on, `u` is a sequence of fields the message does not know. */
  predicate Strangers(u: bytes, i: nat, known: nat)
    requires i <= |u|
    decreases |u| - i
  {
    i < |u| ==>
      var r := NextRecord(u, i, known);
      r.Ok? && r.value.0.Unknown? && Strangers(u, r.value.1, known)
  }

  /** `add` is what a message does with unknown bytes. */
  ghost predicate Collects<M(!new)>(apply: (M, Record) -> Result<M, WireError>, add: (M, bytes) -> M) {
    && (forall m, raw :: apply(m, Unknown(raw)) == Ok(add(m, raw)))
    && (forall m :: add(m, []) == m)
    && (forall m, a, b :: add(add(m, a), b) == add(m, a + b))
  }

  /** Unknown fields are collected unchanged. */
  lemma {:induction false} DecodeStrangers<M(!new)>(known: nat, apply: (M, Record) -> Result<M, WireError>,
                                              add: (M, bytes) -> M, m: M, u: bytes, i: nat)
    requires Collects(apply, add) && i <= |u| && Strangers(u, i, known)
    ensures Decode(known, apply, m, u, i) == Ok(add(m, u[i..]))
    decreases |u| - i
  {
    hide NextRecord;
    if i < |u| {
      var (r, n) := NextRecord(u, i, known).value;
      StrangerRaw(u, i, known);
      DecodeStrangers(known, apply, add, add(m, r.raw), u, n);
      assert u[i..] == u[i..n] + u[n..];
      assert add(add(m, r.raw), u[n..]) == add(m, r.raw + u[n..]);
    } else {
      assert u[i..] == [];
    }
  }

  lemma StrangerRaw(u: bytes, i: nat, known: nat)
    requires var r := NextRecord(u, i, known); r.Ok? && r.value.0.Unknown?
    ensures var (r, n) := NextRecord(u, i, known).value; r.raw == u[i..n]
  {
  }

  function AddGVK(m: GVK, raw: bytes): GVK { m.(unrecognized := m.unrecognized + raw) }

  function AddNSN(m: NSN, raw: bytes): NSN { m.(unrecognized := m.unrecognized + raw) }

  function AddHeader(m: Header, raw: bytes): Header { m.(unrecognized := m.unrecognized + raw) }

  lemma AllCollect()
    ensures Collects(ApplyGVK, AddGVK) && Collects(ApplyNSN, AddNSN) && Collects(ApplyHeader, AddHeader)
  {
    forall m: GVK, a, b ensures AddGVK(AddGVK(m, a), b) == AddGVK(m, a + b) && AddGVK(m, []) == m {
      assert m.unrecognized + a + b == m.unrecognized + (a + b);
      assert m.unrecognized + [] == m.unrecognized;
    }
    forall m: NSN, a, b ensures AddNSN(AddNSN(m, a), b) == AddNSN(m, a + b) && AddNSN(m, []) == m {
      assert m.unrecognized + a + b == m.unrecognized + (a + b);
      assert m.unrecognized + [] == m.unrecognized;
    }
    forall m: Header, a, b ensures AddHeader(AddHeader(m, a), b) == AddHeader(m, a + b) && AddHeader(m, []) == m {
      assert m.unrecognized + a + b == m.unrecognized + (a + b);
      assert m.unrecognized + [] == m.unrecognized;
    }
  }

  // ---------------------------------------------------------------------
  // Round trips
  // ---------------------------------------------------------------------

  /** Whatever a message carries as unrecognized is made of fields it does not
      know; messages without unknown fields satisfy this trivially. */
  predicate GvkOk(m: GVK) { Strangers(m.unrecognized, 0, 3) }

  predicate NsnOk(m: NSN) { Strangers(m.unrecognized, 0, 2) }

  predicate HeaderOk(m: Header) {
    && (m.gvk.Some? ==> GvkOk(m.gvk.value))
    && (m.nsn.Some? ==> NsnOk(m.nsn.value))
    && (m.ownerGvk.Some? ==> GvkOk(m.ownerGvk.value))
    && (m.ownerNsn.Some? ==> NsnOk(m.ownerNsn.value))
    && Strangers(m.unrecognized, 0, 4)
  }

  lemma GvkStringField(m: GVK, num: nat, s: bytes)
    requires 1 <= num <= 3 && |StringField(8 * num + 2, s)| < NEGATIVE
    requires s == [] ==> ApplyGVK(m, Known(num, s)) == Ok(m)
    ensures UnmarshalGVK(m, StringField(8 * num + 2, s)) == ApplyGVK(m, Known(num, s))
  {
    if s != [] {
      DecodeField(3, ApplyGVK, m, num, s);
    }
  }

  lemma NsnStringField(m: NSN, num: nat, s: bytes)
    requires 1 <= num <= 2 && |StringField(8 * num + 2, s)| < NEGATIVE
    requires s == [] ==> ApplyNSN(m, Known(num, s)) == Ok(m)
    ensures UnmarshalNSN(m, StringField(8 * num + 2, s)) == ApplyNSN(m, Known(num, s))
  {
    if s != [] {
      DecodeField(2, ApplyNSN, m, num, s);
    }
  }

  /** Decoding an encoded GVK into an empty one gives it back. */
  lemma RoundTripGVK(m: GVK)
    requires GvkOk(m) && |EncodeGVK(m)| < NEGATIVE
    ensures UnmarshalGVK(NO_GVK, EncodeGVK(m)) == Ok(m)
  {
    hide StringField, Decode;
    var f1, f2, f3 := StringField(0x0a, m.group), StringField(0x12, m.version), StringField(0x1a, m.kind);
    var m1 := GVK(m.group, [], [], []);
    var m2 := GVK(m.group, m.version, [], []);
    var m3 := GVK(m.group, m.version, m.kind, []);
    GvkStringField(NO_GVK, 1, m.group);
    GvkStringField(m1, 2, m.version);
    DecodeConcat(3, ApplyGVK, NO_GVK, f1, f2);
    GvkStringField(m2, 3, m.kind);
    DecodeConcat(3, ApplyGVK, NO_GVK, f1 + f2, f3);
    AllCollect();
    DecodeStrangers(3, ApplyGVK, AddGVK, m3, m.unrecognized, 0);
    assert m.unrecognized[0..] == m.unrecognized && AddGVK(m3, m.unrecognized) == m;
    DecodeConcat(3, ApplyGVK, NO_GVK, f1 + f2 + f3, m.unrecognized);
  }

  /** Decoding an encoded NSN into an empty one gives it back. */
  lemma RoundTripNSN(m: NSN)
    requires NsnOk(m) && |EncodeNSN(m)| < NEGATIVE
    ensures UnmarshalNSN(NO_NSN, EncodeNSN(m)) == Ok(m)
  {
    hide StringField, Decode;
    var f1, f2 := StringField(0x0a, m.namespace), StringField(0x12, m.name);
    var m1 := NSN(m.namespace, [], []);
    var m2 := NSN(m.namespace, m.name, []);
    NsnStringField(NO_NSN, 1, m.namespace);
    NsnStringField(m1, 2, m.name);
    DecodeConcat(2, ApplyNSN, NO_NSN, f1, f2);
    AllCollect();
    DecodeStrangers(2, ApplyNSN, AddNSN, m2, m.unrecognized, 0);
    assert m.unrecognized[0..] == m.unrecognized && AddNSN(m2, m.unrecognized) == m;
    DecodeConcat(2, ApplyNSN, NO_NSN, f1 + f2, m.unrecognized);
  }

  lemma HeaderGvkField(m: Header, num: nat, g: Option<GVK>)
    requires (num == 1 && m.gvk == None) || (num == 3 && m.ownerGvk == None)
    requires |GvkField(8 * num + 2, g)| < NEGATIVE && (g.Some? ==> GvkOk(g.value))
    ensures UnmarshalHeader(m, GvkField(8 * num + 2, g)) ==
            Ok(if num == 1 then m.(gvk := g) else m.(ownerGvk := g))
  {
    if g.Some? {
      RoundTripGVK(g.value);
      DecodeField(4, ApplyHeader, m, num, EncodeGVK(g.value));
    }
  }

  lemma HeaderNsnField(m: Header, num: nat, n: Option<NSN>)
    requires (num == 2 && m.nsn == None) || (num == 4 && m.ownerNsn == None)
    requires |NsnField(8 * num + 2, n)| < NEGATIVE && (n.Some? ==> NsnOk(n.value))
    ensures UnmarshalHeader(m, NsnField(8 * num + 2, n)) ==
            Ok(if num == 2 then m.(nsn := n) else m.(ownerNsn := n))
  {
    if n.Some? {
      RoundTripNSN(n.value);
      DecodeField(4, ApplyHeader, m, num, EncodeNSN(n.value));
    }
  }

  /** Decoding an encoded Header into an empty one gives it back, including which
      of its parts are present. */
  lemma RoundTripHeader(m: Header)
    requires HeaderOk(m) && |EncodeHeader(m)| < NEGATIVE
    ensures UnmarshalHeader(NO_HEADER, EncodeHeader(m)) == Ok(m)
  {
    hide GvkField, NsnField, Decode, GvkOk, NsnOk;
    var f1, f2 := GvkField(0x0a, m.gvk), NsnField(0x12, m.nsn);
    var f3, f4 := GvkField(0x1a, m.ownerGvk), NsnField(0x22, m.ownerNsn);
    var m1 := NO_HEADER.(gvk := m.gvk);
    var m2 := m1.(nsn := m.nsn);
    var m3 := m2.(ownerGvk := m.ownerGvk);
    var m4 := m3.(ownerNsn := m.ownerNsn);
    hide UnmarshalHeader;
    HeaderGvkField(NO_HEADER, 1, m.gvk);
    HeaderNsnField(m1, 2, m.nsn);
    HeaderConcat(m1, f1, m2, f2);
    HeaderGvkField(m2, 3, m.ownerGvk);
    HeaderConcat(m2, f1 + f2, m3, f3);
    HeaderNsnField(m3, 4, m.ownerNsn);
    HeaderConcat(m3, f1 + f2 + f3, m4, f4);
    HeaderStrangers(m4, m.unrecognized);
    assert AddHeader(m4, m.unrecognized) == m;
    HeaderConcat(m4, f1 + f2 + f3 + f4, m, m.unrecognized);
  }

  lemma HeaderConcat(m1: Header, a: bytes, m2: Header, b: bytes)
    requires |a + b| < NEGATIVE && UnmarshalHeader(NO_HEADER, a) == Ok(m1) && UnmarshalHeader(m1, b) == Ok(m2)
    ensures UnmarshalHeader(NO_HEADER, a + b) == Ok(m2)
  {
    hide Decode;
    DecodeConcat(4, ApplyHeader, NO_HEADER, a, b);
  }

  lemma HeaderStrangers(m: Header, u: bytes)
    requires Strangers(u, 0, 4)
    ensures UnmarshalHeader(m, u) == Ok(AddHeader(m, u))
  {
    hide Decode, Strangers;
    AllCollect();
    DecodeStrangers(4, ApplyHeader, AddHeader, m, u, 0);
    assert u[0..] == u;
  }

  // ---------------------------------------------------------------------
  // What a decoder hands out is encoded and decoded without change
  // ---------------------------------------------------------------------

  /** Where `a` ends, decoding sees nothing of what follows it. */
  lemma {:induction false} StrangersConcat(a: bytes, i: nat, b: bytes, known: nat)
    requires i <= |a| && |a + b| < NEGATIVE
    requires Strangers(a, i, known) && Strangers(b, 0, known)
    ensures Strangers(a + b, i, known)
    decreases |a| - i
  {
    hide NextRecord;
    if i == |a| {
      StrangersMove(b, 0, a + b, |a|, known) by {
        AgreeIsSlice(b, 0, a + b, |a|, |b|);
        assert b[0..|b|] == (a + b)[|a|..|a| + |b|];
      }
    } else {
      var n := NextRecord(a, i, known).value.1;
      AgreeIsSlice(a, i, a + b, i, n - i);
      assert a[i..n] == (a + b)[i..n];
      NextRecordMoves(a, i, a + b, i, known);
      StrangersConcat(a, n, b, known);
    }
  }

  lemma {:induction false} StrangersMove(d: bytes, i: nat, e: bytes, j: nat, known: nat)
    requires i <= |d| && |e| < NEGATIVE && |d| - i == |e| - j && j <= |e|
    requires Agree(d, i, e, j, |d| - i) && Strangers(d, i, known)
    ensures Strangers(e, j, known)
    decreases |d| - i
  {
    hide NextRecord;
    if i < |d| {
      var n := NextRecord(d, i, known).value.1;
      AgreeTail(d, i, e, j, |d| - i, 0, n - i);
      NextRecordMoves(d, i, e, j, known);
      AgreeTail(d, i, e, j, |d| - i, n - i, |d| - n);
      StrangersMove(d, n, e, j + (n - i), known);
    }
  }

  /** The bytes of one unknown field are a sequence of unknown fields. */
  lemma OneStranger(d: bytes, i: nat, known: nat)
    requires |d| < NEGATIVE
    requires var r := NextRecord(d, i, known); r.Ok? && r.value.0.Unknown?
    ensures Strangers(NextRecord(d, i, known).value.0.raw, 0, known)
  {
    var (r, n) := NextRecord(d, i, known).value;
    StrangerRaw(d, i, known);
    hide NextRecord;
    AgreeIsSlice(d, i, r.raw, 0, n - i);
    assert r.raw[0..n - i] == r.raw;
    NextRecordMoves(d, i, r.raw, 0, known);
  }

  /** `tail` is the unrecognized part of a message. */
  ghost predicate Keeps<M(!new)>(apply: (M, Record) -> Result<M, WireError>, tail: M -> bytes) {
    forall m, r :: apply(m, r).Ok? ==>
      tail(apply(m, r).value) == if r.Unknown? then tail(m) + r.raw else tail(m)
  }

  /** Decoding only ever collects unknown fields, and never more bytes than it
      has read. */
  lemma {:induction false} DecodeKeeps<M(!new)>(known: nat, apply: (M, Record) -> Result<M, WireError>,
                                                tail: M -> bytes, m: M, d: bytes, i: nat)
    requires i <= |d| && Keeps(apply, tail) && Decode(known, apply, m, d, i).Ok?
    requires |tail(m)| + |d| - i < NEGATIVE && Strangers(tail(m), 0, known) && |d| < NEGATIVE
    ensures var m' := Decode(known, apply, m, d, i).value;
            |tail(m')| <= |tail(m)| + |d| - i && Strangers(tail(m'), 0, known)
    decreases |d| - i
  {
    hide NextRecord;
    if i < |d| {
      var (r, n) := NextRecord(d, i, known).value;
      var m1 := apply(m, r).value;
      assert tail(m1) == if r.Unknown? then tail(m) + r.raw else tail(m);
      if r.Unknown? {
        StrangerRaw(d, i, known);
        OneStranger(d, i, known);
        StrangersConcat(tail(m), 0, r.raw, known);
      }
      DecodeKeeps(known, apply, tail, m1, d, n);
    }
  }

  lemma UnmarshalGVKOk(m: GVK, d: bytes)
    requires GvkOk(m) && |m.unrecognized| + |d| < NEGATIVE && UnmarshalGVK(m, d).Ok?
    ensures GvkOk(UnmarshalGVK(m, d).value)
    ensures |UnmarshalGVK(m, d).value.unrecognized| <= |m.unrecognized| + |d|
  {
    hide Decode, Strangers;
    var tail := (m: GVK) => m.unrecognized;
    assert Keeps(ApplyGVK, tail);
    DecodeKeeps(3, ApplyGVK, tail, m, d, 0);
  }

  lemma UnmarshalNSNOk(m: NSN, d: bytes)
    requires NsnOk(m) && |m.unrecognized| + |d| < NEGATIVE && UnmarshalNSN(m, d).Ok?
    ensures NsnOk(UnmarshalNSN(m, d).value)
    ensures |UnmarshalNSN(m, d).value.unrecognized| <= |m.unrecognized| + |d|
  {
    hide Decode, Strangers;
    var tail := (m: NSN) => m.unrecognized;
    assert Keeps(ApplyNSN, tail);
    DecodeKeeps(2, ApplyNSN, tail, m, d, 0);
  }

  // ---------------------------------------------------------------------
  // Messages are written no longer than they were read
  // ---------------------------------------------------------------------

  function RecordSize(r: Record): nat {
    match r
    case Known(_, p) => FieldSize(|p|)
    case Unknown(raw) => |raw|
  }

  lemma RecordNoShorter(d: bytes, i: nat, known: nat)
    requires NextRecord(d, i, known).Ok?
    ensures var (r, n) := NextRecord(d, i, known).value; RecordSize(r) <= n - i
  {
    hide ReadVarint, SkipFrom, Varint, Sov;
    var (r, n) := NextRecord(d, i, known).value;
    if r.Known? {
      var at := ReadVarint(d, i).value.1;
      ReadNoShorter(d, at);
      SovIsLength(|r.payload|);
    }
  }

  /** Applying a record makes a message at most as much longer as the record. */
  ghost predicate Grows<M(!new)>(apply: (M, Record) -> Result<M, WireError>, size: M -> nat) {
    forall m, r :: apply(m, r).Ok? ==> size(apply(m, r).value) <= size(m) + RecordSize(r)
  }

  lemma {:induction false} DecodeGrows<M(!new)>(known: nat, apply: (M, Record) -> Result<M, WireError>,
                                                size: M -> nat, m: M, d: bytes, i: nat)
    requires i <= |d| && Grows(apply, size) && Decode(known, apply, m, d, i).Ok?
    ensures size(Decode(known, apply, m, d, i).value) <= size(m) + |d| - i
    decreases |d| - i
  {
    hide NextRecord, RecordSize;
    if i < |d| {
      var (r, n) := NextRecord(d, i, known).value;
      RecordNoShorter(d, i, known);
      DecodeGrows(known, apply, size, apply(m, r).value, d, n);
    }
  }

  lemma GvkGrows(m: GVK, d: bytes)
    requires UnmarshalGVK(m, d).Ok?
    ensures SizeGVK(UnmarshalGVK(m, d).value) <= SizeGVK(m) + |d|
  {
    hide Decode, FieldSize;
    assert Grows(ApplyGVK, SizeGVK);
    DecodeGrows(3, ApplyGVK, SizeGVK, m, d, 0);
  }

  lemma NsnGrows(m: NSN, d: bytes)
    requires UnmarshalNSN(m, d).Ok?
    ensures SizeNSN(UnmarshalNSN(m, d).value) <= SizeNSN(m) + |d|
  {
    hide Decode, FieldSize;
    assert Grows(ApplyNSN, SizeNSN);
    DecodeGrows(2, ApplyNSN, SizeNSN, m, d, 0);
  }

  lemma FieldSizeSum(a: nat, b: nat, x: nat)
    requires x <= a + b
    ensures FieldSize(x) <= FieldSize(a) + FieldSize(b)
  {
    hide Varint, Sov;
    SovIsLength(x);
    SovIsLength(a + b);
    SovIsLength(a);
    SovIsLength(b);
    VarintMonotone(x, a + b);
    VarintSum(a, b);
  }

  lemma FieldSizeMonotone(x: nat, b: nat)
    requires x <= b
    ensures FieldSize(x) <= FieldSize(b)
  {
    hide Varint, Sov;
    SovIsLength(x);
    SovIsLength(b);
    VarintMonotone(x, b);
  }

  function GvkPartSize(part: Option<GVK>): nat {
    if part.Some? then FieldSize(SizeGVK(part.value)) else 0
  }

  function NsnPartSize(part: Option<NSN>): nat {
    if part.Some? then FieldSize(SizeNSN(part.value)) else 0
  }

  lemma MergeGVKGrows(part: Option<GVK>, p: bytes)
    requires MergeGVK(part, p).Ok?
    ensures GvkPartSize(Some(MergeGVK(part, p).value)) <= GvkPartSize(part) + FieldSize(|p|)
  {
    assert SizeGVK(NO_GVK) == 0;
    hide FieldSize, UnmarshalGVK, SizeGVK;
    var start := if part.Some? then part.value else NO_GVK;
    GvkGrows(start, p);
    var x := SizeGVK(MergeGVK(part, p).value);
    if part.Some? {
      FieldSizeSum(SizeGVK(part.value), |p|, x);
    } else {
      FieldSizeMonotone(x, |p|);
    }
  }

  lemma MergeNSNGrows(part: Option<NSN>, p: bytes)
    requires MergeNSN(part, p).Ok?
    ensures NsnPartSize(Some(MergeNSN(part, p).value)) <= NsnPartSize(part) + FieldSize(|p|)
  {
    assert SizeNSN(NO_NSN) == 0;
    hide FieldSize, UnmarshalNSN, SizeNSN;
    var start := if part.Some? then part.value else NO_NSN;
    NsnGrows(start, p);
    var x := SizeNSN(MergeNSN(part, p).value);
    if part.Some? {
      FieldSizeSum(SizeNSN(part.value), |p|, x);
    } else {
      FieldSizeMonotone(x, |p|);
    }
  }

  lemma HeaderSizeParts(m: Header)
    ensures SizeHeader(m) == GvkPartSize(m.gvk) + NsnPartSize(m.nsn) + GvkPartSize(m.ownerGvk) + NsnPartSize(m.ownerNsn)
                             + |m.unrecognized|
  {
  }

  lemma ApplyHeaderGrows(m: Header, r: Record)
    requires ApplyHeader(m, r).Ok?
    ensures SizeHeader(ApplyHeader(m, r).value) <= SizeHeader(m) + RecordSize(r)
  {
    hide SizeHeader, GvkPartSize, NsnPartSize, MergeGVK, MergeNSN, FieldSize;
    HeaderSizeParts(m);
    HeaderSizeParts(ApplyHeader(m, r).value);
    if r.Known? {
      if r.num == 1 {
        MergeGVKGrows(m.gvk, r.payload);
      } else if r.num == 2 {
        MergeNSNGrows(m.nsn, r.payload);
      } else if r.num == 3 {
        MergeGVKGrows(m.ownerGvk, r.payload);
      } else {
        MergeNSNGrows(m.ownerNsn, r.payload);
      }
    }
  }

  /** A decoded Header is encoded in no more bytes than it was decoded from. */
  lemma HeaderNoLonger(d: bytes)
    requires UnmarshalHeader(NO_HEADER, d).Ok?
    ensures |EncodeHeader(UnmarshalHeader(NO_HEADER, d).value)| <= |d|
  {
    assert SizeHeader(NO_HEADER) == 0;
    hide Decode, SizeHeader, ApplyHeader, RecordSize, EncodeHeader;
    forall m, r | ApplyHeader(m, r).Ok? ensures SizeHeader(ApplyHeader(m, r).value) <= SizeHeader(m) + RecordSize(r) {
      ApplyHeaderGrows(m, r);
    }
    DecodeGrows(4, ApplyHeader, SizeHeader, NO_HEADER, d, 0);
    SizeHeaderExact(UnmarshalHeader(NO_HEADER, d).value);
  }

  /** A decoded GVK survives another encoding and decoding unchanged, whatever
      bytes it came from, and takes no more of them. */
  lemma StableGVK(d: bytes)
    requires |d| < NEGATIVE && UnmarshalGVK(NO_GVK, d).Ok?
    ensures var m := UnmarshalGVK(NO_GVK, d).value;
            |EncodeGVK(m)| <= |d| && UnmarshalGVK(NO_GVK, EncodeGVK(m)) == Ok(m)
  {
    hide UnmarshalGVK, EncodeGVK;
    var m := UnmarshalGVK(NO_GVK, d).value;
    GvkGrows(NO_GVK, d);
    SizeGVKExact(m);
    UnmarshalGVKOk(NO_GVK, d);
    RoundTripGVK(m);
  }

  /** The same for NSN. */
  lemma StableNSN(d: bytes)
    requires |d| < NEGATIVE && UnmarshalNSN(NO_NSN, d).Ok?
    ensures var m := UnmarshalNSN(NO_NSN, d).value;
            |EncodeNSN(m)| <= |d| && UnmarshalNSN(NO_NSN, EncodeNSN(m)) == Ok(m)
  {
    hide UnmarshalNSN, EncodeNSN;
    var m := UnmarshalNSN(NO_NSN, d).value;
    NsnGrows(NO_NSN, d);
    SizeNSNExact(m);
    UnmarshalNSNOk(NO_NSN, d);
    RoundTripNSN(m);
  }

  /** The unrecognized bytes of a header and its parts. */
  function Baggage(m: Header): nat {
    (if m.gvk.Some? then |m.gvk.value.unrecognized| else 0)
    + (if m.nsn.Some? then |m.nsn.value.unrecognized| else 0)
    + (if m.ownerGvk.Some? then |m.ownerGvk.value.unrecognized| else 0)
    + (if m.ownerNsn.Some? then |m.ownerNsn.value.unrecognized| else 0)
    + |m.unrecognized|
  }

  lemma MergeGVKOk(part: Option<GVK>, p: bytes)
    requires part.Some? ==> GvkOk(part.value)
    requires (if part.Some? then |part.value.unrecognized| else 0) + |p| < NEGATIVE
    ensures var r := MergeGVK(part, p);
            r.Ok? ==> GvkOk(r.value)
                      && |r.value.unrecognized| <= (if part.Some? then |part.value.unrecognized| else 0) + |p|
  {
    var start := if part.Some? then part.value else NO_GVK;
    if UnmarshalGVK(start, p).Ok? {
      UnmarshalGVKOk(start, p);
    }
  }

  lemma MergeNSNOk(part: Option<NSN>, p: bytes)
    requires part.Some? ==> NsnOk(part.value)
    requires (if part.Some? then |part.value.unrecognized| else 0) + |p| < NEGATIVE
    ensures var r := MergeNSN(part, p);
            r.Ok? ==> NsnOk(r.value)
                      && |r.value.unrecognized| <= (if part.Some? then |part.value.unrecognized| else 0) + |p|
  {
    var start := if part.Some? then part.value else NO_NSN;
    if UnmarshalNSN(start, p).Ok? {
      UnmarshalNSNOk(start, p);
    }
  }

  lemma ApplyHeaderOk(m: Header, num: nat, p: bytes)
    requires HeaderOk(m) && Baggage(m) + |p| < NEGATIVE && ApplyHeader(m, Known(num, p)).Ok?
    ensures var m' := ApplyHeader(m, Known(num, p)).value;
            HeaderOk(m') && Baggage(m') <= Baggage(m) + |p|
  {
    hide GvkOk, NsnOk, MergeGVK, MergeNSN, Strangers;
    if num == 1 {
      MergeGVKOk(m.gvk, p);
    } else if num == 2 {
      MergeNSNOk(m.nsn, p);
    } else if num == 3 {
      MergeGVKOk(m.ownerGvk, p);
    } else {
      MergeNSNOk(m.ownerNsn, p);
    }
  }

  lemma KnownPayload(d: bytes, i: nat, known: nat)
    requires var r := NextRecord(d, i, known); r.Ok? && r.value.0.Known?
    ensures var (r, n) := NextRecord(d, i, known).value; |r.payload| <= n - i
  {
    hide ReadVarint;
  }

  lemma {:induction false} DecodeHeaderOk(m: Header, d: bytes, i: nat)
    requires i <= |d| < NEGATIVE && HeaderOk(m) && Baggage(m) + |d| - i < NEGATIVE
    requires Decode(4, ApplyHeader, m, d, i).Ok?
    ensures HeaderOk(Decode(4, ApplyHeader, m, d, i).value)
    decreases |d| - i
  {
    hide NextRecord, GvkOk, NsnOk;
    if i < |d| {
      var (r, n) := NextRecord(d, i, 4).value;
      var m1 := ApplyHeader(m, r).value;
      if r.Unknown? {
        StrangerRaw(d, i, 4);
        OneStranger(d, i, 4);
        StrangersConcat(m.unrecognized, 0, r.raw, 4);
      } else {
        KnownPayload(d, i, 4);
        ApplyHeaderOk(m, r.num, r.payload);
      }
      DecodeHeaderOk(m1, d, n);
    }
  }

  /** The same for Header: decoding, encoding and decoding again ends where the
      first decoding ended. */
  lemma StableHeader(d: bytes)
    requires |d| < NEGATIVE && UnmarshalHeader(NO_HEADER, d).Ok?
    ensures var m := UnmarshalHeader(NO_HEADER, d).value;
            |EncodeHeader(m)| <= |d| && UnmarshalHeader(NO_HEADER, EncodeHeader(m)) == Ok(m)
  {
    HeaderNoLonger(d);
    DecodeHeaderOk(NO_HEADER, d, 0);
    RoundTripHeader(UnmarshalHeader(NO_HEADER, d).value);
  }
}
