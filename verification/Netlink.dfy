/** Netlink attributes (netlink.h): the byte format, the walk that reads it, and
    the message builder with nests that can be closed or cancelled. */
module Netlink {
  import opened MachineInts

  type Octets = seq<uint8>

  /** A nested attribute carries NLA_F_NESTED in its type field. */
  datatype Attr = Leaf(ty: nat, payload: Octets) | Nest(ty: nat, kids: seq<Attr>)

  const HDRLEN: nat := 4
  const NESTED: nat := 0x8000
  const TYPES: nat := 0x4000

  /** MNL_ALIGN */
  function Align(n: nat): (r: nat)
    ensures r % 4 == 0 && n <= r < n + 4
  {
    (n + 3) / 4 * 4
  }

  function Zeros(n: nat): (r: Octets)
    ensures |r| == n
  {
    seq(n, _ => 0)
  }

  /** A little-endian uint16_t field; larger values are truncated. */
  function Le16(n: nat): (r: Octets)
    ensures |r| == 2
  {
    [(n % 256) as uint8, (n / 256 % 256) as uint8]
  }

  function FromLe16(lo: uint8, hi: uint8): (r: nat)
    ensures r < 0x1_0000
  {
    lo as nat + 256 * hi as nat
  }

  function Header(len: nat, ty: nat): (r: Octets)
    ensures |r| == 4
  {
    Le16(len) + Le16(ty)
  }

  function Encode(a: Attr): (r: Octets)
    ensures |r| >= 4
    decreases a, 1
  {
    match a
    case Leaf(ty, payload) =>
      Header(HDRLEN + |payload|, ty) + payload + Zeros(Align(|payload|) - |payload|)
    case Nest(ty, kids) =>
      var body := EncodeAll(kids);
      Header(HDRLEN + |body|, NESTED + ty) + body
  }

  function EncodeAll(s: seq<Attr>): Octets
    decreases s, 0
  {
    if s == [] then [] else Encode(s[0]) + EncodeAll(s[1..])
  }

  /** Types and lengths that their 16-bit fields can hold. */
  predicate WellFormed(a: Attr)
    decreases a, 1
  {
    && a.ty < TYPES
    && match a
       case Leaf(_, payload) => HDRLEN + |payload| < 0x1_0000
       case Nest(_, kids) => WellFormedAll(kids) && HDRLEN + |EncodeAll(kids)| < 0x1_0000
  }

  predicate WellFormedAll(s: seq<Attr>)
    decreases s, 0
  {
    s == [] || (WellFormed(s[0]) && WellFormedAll(s[1..]))
  }

  /** mnl_attr_parse and mnl_attr_parse_nested: walk while mnl_attr_ok, step by
      the aligned length, descend into nested attributes. */
  function Parse(b: Octets): seq<Attr>
    decreases |b|
  {
    if |b| < HDRLEN then [] else
    var len := FromLe16(b[0], b[1]);
    var raw := FromLe16(b[2], b[3]);
    if len < HDRLEN || len > |b| then [] else
    var payload := b[HDRLEN..len];
    var a := if raw / NESTED == 1 then Nest(raw % TYPES, Parse(payload)) else Leaf(raw % TYPES, payload);
    [a] + Parse(b[if Align(len) < |b| then Align(len) else |b|..])
  }

  lemma {:induction false} EncodeAligned(a: Attr)
    ensures |Encode(a)| % 4 == 0
    decreases a, 1
  {
    hide Encode, EncodeAll, Align;
    if a.Nest? {
      EncodeAllAligned(a.kids);
    }
    EncodeSize(a);
  }

  lemma EncodeSize(a: Attr)
    ensures |Encode(a)| == HDRLEN + if a.Nest? then |EncodeAll(a.kids)| else Align(|a.payload|)
  {
    hide Align;
  }

  lemma {:induction false} EncodeAllAligned(s: seq<Attr>)
    ensures |EncodeAll(s)| % 4 == 0
    decreases s, 0
  {
    hide Encode;
    if s != [] {
      EncodeAligned(s[0]);
      EncodeAllAligned(s[1..]);
      assert |EncodeAll(s)| == |Encode(s[0])| + |EncodeAll(s[1..])|;
    }
  }

  lemma {:induction false} EncodeConcat(s: seq<Attr>, t: seq<Attr>)
    ensures EncodeAll(s + t) == EncodeAll(s) + EncodeAll(t)
  {
    hide Encode;
    if s == [] {
      assert s + t == t;
    } else {
      var a, b, c := Encode(s[0]), EncodeAll(s[1..]), EncodeAll(t);
      EncodeConcat(s[1..], t);
      assert (s + t)[0] == s[0] && (s + t)[1..] == s[1..] + t;
      assert a + (b + c) == a + b + c;
    }
  }

  lemma EncodeOne(a: Attr)
    ensures EncodeAll([a]) == Encode(a)
  {
    assert [a][1..] == [];
  }

  lemma HeaderBytes(len: nat, ty: nat)
    requires len < 0x1_0000 && ty < 0x1_0000
    ensures var h := Header(len, ty); FromLe16(h[0], h[1]) == len && FromLe16(h[2], h[3]) == ty
  {
  }

  lemma ParseUnfold(b: Octets, len: nat, raw: nat, body: Octets, rest: Octets)
    requires HDRLEN <= len <= |b| && FromLe16(b[0], b[1]) == len && FromLe16(b[2], b[3]) == raw
    requires b[HDRLEN..len] == body
    requires Align(len) <= |b| && b[Align(len)..] == rest
    ensures Parse(b) == [if raw / NESTED == 1 then Nest(raw % TYPES, Parse(body)) else Leaf(raw % TYPES, body)]
            + Parse(rest)
  {
    assert b[if Align(len) < |b| then Align(len) else |b|..] == rest;
  }

  /** One step of the walk over a header, a body and what follows. */
  lemma ParseStep(len: nat, raw: nat, body: Octets, pad: Octets, rest: Octets)
    requires len == HDRLEN + |body| < 0x1_0000 && raw < 0x1_0000 && |pad| == Align(|body|) - |body|
    ensures Parse(Header(len, raw) + body + pad + rest) ==
      [if raw / NESTED == 1 then Nest(raw % TYPES, Parse(body)) else Leaf(raw % TYPES, body)] + Parse(rest)
  {
    hide Parse, Header;
    var h := Header(len, raw);
    var b := h + body + pad + rest;
    HeaderBytes(len, raw);
    assert b[0] == h[0] && b[1] == h[1] && b[2] == h[2] && b[3] == h[3];
    assert b[HDRLEN..len] == body;
    assert Align(len) == 4 + |body| + |pad|;
    assert b[Align(len)..] == rest;
    ParseUnfold(b, len, raw, body, rest);
  }

  lemma ParseLeaf(ty: nat, payload: Octets, rest: Octets)
    requires WellFormed(Leaf(ty, payload))
    ensures Parse(Encode(Leaf(ty, payload)) + rest) == [Leaf(ty, payload)] + Parse(rest)
  {
    hide Parse, Header;
    ParseStep(HDRLEN + |payload|, ty, payload, Zeros(Align(|payload|) - |payload|), rest);
  }

  lemma ParseNest(ty: nat, kids: seq<Attr>, rest: Octets)
    requires WellFormed(Nest(ty, kids)) && Parse(EncodeAll(kids)) == kids
    ensures Parse(Encode(Nest(ty, kids)) + rest) == [Nest(ty, kids)] + Parse(rest)
  {
    hide Parse, Header, EncodeAll;
    var body := EncodeAll(kids);
    EncodeAllAligned(kids);
    ParseStep(HDRLEN + |body|, NESTED + ty, body, [], rest);
    assert Header(HDRLEN + |body|, NESTED + ty) + body + [] + rest == Encode(Nest(ty, kids)) + rest;
  }

  /** Parsing inverts encoding, to any nesting depth. */
  lemma {:induction false} ParseEncode(s: seq<Attr>)
    requires WellFormedAll(s)
    ensures Parse(EncodeAll(s)) == s
    decreases s
  {
    if s != [] {
      ParseEncode(s[1..]);
      match s[0] {
        case Leaf(ty, payload) =>
          ParseLeaf(ty, payload, EncodeAll(s[1..]));
        case Nest(ty, kids) =>
          ParseEncode(kids);
          ParseNest(ty, kids, EncodeAll(s[1..]));
      }
      assert s == [s[0]] + s[1..];
    }
  }

  lemma {:induction false} WellFormedConcat(s: seq<Attr>, t: seq<Attr>)
    ensures WellFormedAll(s + t) <==> WellFormedAll(s) && WellFormedAll(t)
  {
    if s == [] {
      assert s + t == t;
    } else {
      WellFormedConcat(s[1..], t);
      assert (s + t)[1..] == s[1..] + t;
    }
  }

  /** `bytes` are the message `base` followed by an open nest that so far holds
      `body`; the length field of the nest may be anything. */
  ghost predicate Open(bytes: Octets, base: Octets, ty: nat, body: seq<Attr>) {
    && |base| + HDRLEN <= |bytes|
    && bytes[..|base|] == base
    && bytes[|base| + 2..] == Le16(NESTED + ty) + EncodeAll(body)
  }

  /** Whatever is appended to the message is appended to its open nest. */
  lemma OpenGrows(bytes: Octets, base: Octets, ty: nat, body: seq<Attr>, more: seq<Attr>)
    requires Open(bytes, base, ty, body)
    ensures Open(bytes + EncodeAll(more), base, ty, body + more)
  {
    hide Le16, EncodeAll;
    EncodeConcat(body, more);
    var grown := bytes + EncodeAll(more);
    var h, e, m := Le16(NESTED + ty), EncodeAll(body), EncodeAll(more);
    assert (h + e) + m == h + (e + m);
    assert grown[|base| + 2..] == bytes[|base| + 2..] + m;
    assert grown[..|base|] == bytes[..|base|];
  }

  lemma LeafLength(ty: nat, payload: Octets)
    ensures |Encode(Leaf(ty, payload))| == HDRLEN + Align(|payload|)
  {
  }

  /** The payload and its header fit the 16-bit length field. */
  predicate Fitting(payload: Octets) {
    HDRLEN + |payload| < 0x1_0000
  }

  /** The part of an attribute that its length field accounts for. */
  function Placed(ty: nat, payload: Octets): Octets {
    EncodeSize(Leaf(ty, payload));
    CutSize(|payload|);
    Encode(Leaf(ty, payload))[..Align((HDRLEN + |payload|) % 0x1_0000)]
  }

  lemma CutSize(n: nat)
    ensures Align((HDRLEN + n) % 0x1_0000) <= HDRLEN + Align(n)
    ensures HDRLEN + n < 0x1_0000 ==> Align((HDRLEN + n) % 0x1_0000) == HDRLEN + Align(n)
  {
  }

  /** Every attribute put keeps the message a multiple of four octets long, also
      one that is cut; one that fits is there whole. */
  lemma PlacedSize(ty: nat, payload: Octets)
    ensures |Placed(ty, payload)| % 4 == 0
    ensures Fitting(payload) ==> Placed(ty, payload) == Encode(Leaf(ty, payload))
    ensures Fitting(payload) ==> |Placed(ty, payload)| == HDRLEN + Align(|payload|)
  {
    hide Encode;
    EncodeSize(Leaf(ty, payload));
    CutSize(|payload|);
  }

  /** A message under construction: `bytes` are its first nlmsg_len bytes. */
  class Message {
    var bytes: Octets

    constructor (header: Octets)
      ensures bytes == header
    {
      bytes := header;
    }

    /** mnl_attr_put.  The length field has 16 bits, and the message grows by what
        that field says: a payload too long for it is cut. */
    method Put(ty: nat, payload: Octets)
      modifies this
      ensures bytes == old(bytes) + Placed(ty, payload)
      ensures Fitting(payload) ==> bytes == old(bytes) + EncodeAll([Leaf(ty, payload)])
      ensures Fitting(payload) ==> |bytes| == |old(bytes)| + HDRLEN + Align(|payload|)
      ensures |old(bytes)| % 4 == 0 ==> |bytes| % 4 == 0
    {
      EncodeOne(Leaf(ty, payload));
      PlacedSize(ty, payload);
      var whole := Header(HDRLEN + |payload|, ty) + payload + Zeros(Align(|payload|) - |payload|);
      bytes := bytes + whole[..Align((HDRLEN + |payload|) % 0x1_0000)];
      assert whole == Encode(Leaf(ty, payload));
    }

    /** mnl_attr_put_check */
    method PutCheck(buflen: nat, ty: nat, payload: Octets) returns (ok: bool)
      modifies this
      ensures ok == (|old(bytes)| + HDRLEN + Align(|payload|) <= buflen)
      ensures bytes == if ok then old(bytes) + Placed(ty, payload) else old(bytes)
      ensures ok && Fitting(payload) ==> bytes == old(bytes) + EncodeAll([Leaf(ty, payload)])
      ensures ok && Fitting(payload) ==> |bytes| == |old(bytes)| + HDRLEN + Align(|payload|)
      ensures |old(bytes)| % 4 == 0 ==> |bytes| % 4 == 0
    {
      if |bytes| + HDRLEN + Align(|payload|) > buflen {
        return false;
      }
      Put(ty, payload);
      ok := true;
    }

    /** mnl_attr_nest_start: the length field is left for later. */
    method NestStart(ty: nat) returns (start: nat)
      modifies this
      ensures start == |old(bytes)| && |bytes| == start + HDRLEN
      ensures Open(bytes, old(bytes), ty, [])
      ensures |old(bytes)| % 4 == 0 ==> |bytes| % 4 == 0
    {
      start := |bytes|;
      var lo: uint8, hi: uint8 := *, *;
      bytes := bytes + [lo, hi] + Le16(NESTED + ty);
    }

    /** mnl_attr_nest_start_check */
    method NestStartCheck(buflen: nat, ty: nat) returns (ok: bool, start: nat)
      modifies this
      ensures start == |old(bytes)| && ok == (start + HDRLEN <= buflen)
      ensures !ok ==> bytes == old(bytes)
      ensures ok ==> |bytes| == start + HDRLEN && Open(bytes, old(bytes), ty, [])
      ensures |old(bytes)| % 4 == 0 ==> |bytes| % 4 == 0
    {
      start := |bytes|;
      if |bytes| + HDRLEN > buflen {
        return false, start;
      }
      ok := true;
      start := NestStart(ty);
    }

    /** mnl_attr_nest_end: what was added since the start becomes the body. */
    method NestEnd(start: nat, ghost base: Octets, ghost ty: nat, ghost kids: seq<Attr>)
      requires start == |base| && Open(bytes, base, ty, kids)
      modifies this
      ensures bytes == base + EncodeAll([Nest(ty, kids)]) && |bytes| == |old(bytes)|
    {
      EncodeOne(Nest(ty, kids));
      var len := |bytes| - start;
      bytes := bytes[..start] + Le16(len) + bytes[start + 2..];
      assert len == HDRLEN + |EncodeAll(kids)|;
      assert bytes == base + Encode(Nest(ty, kids));
    }

    /** mnl_attr_nest_cancel: back to the message as it was. */
    method NestCancel(start: nat, ghost base: Octets)
      requires start == |base| <= |bytes| && bytes[..start] == base
      modifies this
      ensures bytes == base
    {
      bytes := bytes[..start];
    }
  }
}
