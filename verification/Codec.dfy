/**
 * The vector and map templates of rpc/marshall.h, over any element codec.  The bodies of the primitive pack and
 * unpack routines are not part of this model; they enter as codecs with a round-trip law.
 */
module Codec {

  type Bytes = seq<nat>

  const COUNT_LIMIT := 0x1_0000_0000

  /** An encoder, a decoder that returns the value and the bytes it leaves, and the values they agree on. */
  datatype Codec<!T> = Codec(enc: T -> Bytes, dec: Bytes -> (T, Bytes), dom: T -> bool)

  /** Decoding an encoding followed by any bytes returns the value and those bytes. */
  ghost predicate Lawful<T(!new)>(c: Codec<T>) {
    forall x, rest :: c.dom(x) ==> c.dec(c.enc(x) + rest) == (x, rest)
  }

  /** A codec for the unsigned counts that precede a container. */
  ghost predicate CountCodec(n: Codec<nat>) {
    Lawful(n) && (forall k: nat :: k < COUNT_LIMIT ==> n.dom(k))
  }

  // ---- vectors --------------------------------------------------------------------------------------------

  function EncodeAll<T>(c: Codec<T>, v: seq<T>): Bytes {
    if v == [] then [] else EncodeAll(c, v[..|v| - 1]) + c.enc(v[|v| - 1])
  }

  function DecodeMany<T>(c: Codec<T>, k: nat, bytes: Bytes): (r: (seq<T>, Bytes))
    ensures |r.0| == k
  {
    if k == 0 then ([], bytes)
    else
      var (v, rest) := DecodeMany(c, k - 1, bytes);
      var (x, rest') := c.dec(rest);
      (v + [x], rest')
  }

  /** A longer vector has no encoding: the 32-bit index of the loop would never reach its size. */
  function EncodeVector<T>(n: Codec<nat>, c: Codec<T>, v: seq<T>): Bytes
    requires |v| < COUNT_LIMIT
  {
    n.enc(|v|) + EncodeAll(c, v)
  }

  function DecodeVector<T>(n: Codec<nat>, c: Codec<T>, bytes: Bytes): (seq<T>, Bytes) {
    var (k, rest) := n.dec(bytes);
    DecodeMany(c, k, rest)
  }

  /** The vector codec built from a count codec and an element codec. */
  function VectorCodec<T>(n: Codec<nat>, c: Codec<T>): Codec<seq<T>> {
    Codec(v => if |v| < COUNT_LIMIT then EncodeVector(n, c, v) else [],
          bytes => DecodeVector(n, c, bytes),
          v => |v| < COUNT_LIMIT && forall i :: 0 <= i < |v| ==> c.dom(v[i]))
  }

  lemma {:induction false} DecodeManyLaw<T(!new)>(c: Codec<T>, v: seq<T>, rest: Bytes)
    requires Lawful(c) && forall i :: 0 <= i < |v| ==> c.dom(v[i])
    ensures DecodeMany(c, |v|, EncodeAll(c, v) + rest) == (v, rest)
    decreases |v|
  {
    if v == [] {
      assert EncodeAll(c, v) + rest == rest;
    } else {
      var m := |v| - 1;
      var last := c.enc(v[m]);
      DecodeManyLaw(c, v[..m], last + rest);
      assert EncodeAll(c, v) + rest == EncodeAll(c, v[..m]) + (last + rest);
      assert v[..m] + [v[m]] == v;
    }
  }

  lemma VectorRoundTrip<T(!new)>(n: Codec<nat>, c: Codec<T>, v: seq<T>, rest: Bytes)
    requires CountCodec(n) && Lawful(c) && |v| < COUNT_LIMIT && forall i :: 0 <= i < |v| ==> c.dom(v[i])
    ensures DecodeVector(n, c, EncodeVector(n, c, v) + rest) == (v, rest)
  {
    var body := EncodeAll(c, v) + rest;
    assert EncodeVector(n, c, v) + rest == n.enc(|v|) + body;
    assert n.dec(n.enc(|v|) + body) == (|v|, body);
    DecodeManyLaw(c, v, rest);
  }

  /** Composition: a lawful element codec gives a lawful vector codec, so vectors nest to any depth. */
  lemma VectorLawful<T(!new)>(n: Codec<nat>, c: Codec<T>)
    requires CountCodec(n) && Lawful(c)
    ensures Lawful(VectorCodec(n, c))
  {
    var vc := VectorCodec(n, c);
    forall v, rest | vc.dom(v)
      ensures vc.dec(vc.enc(v) + rest) == (v, rest)
    {
      VectorRoundTrip(n, c, v, rest);
    }
  }

  // ---- maps -----------------------------------------------------------------------------------------------

  /** The key order of a std::map: every key once. */
  predicate Enumerates<A(==)>(ks: seq<A>, keys: set<A>) {
    && (forall i, j :: 0 <= i < j < |ks| ==> ks[i] != ks[j])
    && (forall i :: 0 <= i < |ks| ==> ks[i] in keys)
    && (forall k | k in keys :: k in ks)
  }

  function EncodePairs<A, B>(ca: Codec<A>, cb: Codec<B>, ks: seq<A>, m: map<A, B>): Bytes
    requires forall i :: 0 <= i < |ks| ==> ks[i] in m
  {
    if ks == [] then []
    else
      var l := |ks| - 1;
      EncodePairs(ca, cb, ks[..l], m) + (ca.enc(ks[l]) + cb.enc(m[ks[l]]))
  }

  /** k pairs, assigned one after another into an empty map. */
  function DecodePairs<A(==), B>(ca: Codec<A>, cb: Codec<B>, k: nat, bytes: Bytes): (map<A, B>, Bytes) {
    if k == 0 then (map[], bytes)
    else
      var (m, rest) := DecodePairs(ca, cb, k - 1, bytes);
      var (a, rest1) := ca.dec(rest);
      var (b, rest2) := cb.dec(rest1);
      (m[a := b], rest2)
  }

  function EncodeMap<A, B>(n: Codec<nat>, ca: Codec<A>, cb: Codec<B>, ks: seq<A>, m: map<A, B>): Bytes
    requires forall i :: 0 <= i < |ks| ==> ks[i] in m
  {
    n.enc(|ks| % COUNT_LIMIT) + EncodePairs(ca, cb, ks, m)
  }

  function DecodeMap<A(==), B>(n: Codec<nat>, ca: Codec<A>, cb: Codec<B>, bytes: Bytes): (map<A, B>, Bytes) {
    var (k, rest) := n.dec(bytes);
    DecodePairs(ca, cb, k, rest)
  }

  /** The part of m on the given keys. */
  ghost function Restrict<A, B>(m: map<A, B>, ks: seq<A>): map<A, B> {
    map k | k in ks && k in m :: m[k]
  }

  lemma {:induction false} DecodePairsLaw<A(!new), B(!new)>(
      ca: Codec<A>, cb: Codec<B>, ks: seq<A>, m: map<A, B>, rest: Bytes)
    requires Lawful(ca) && Lawful(cb)
    requires forall i :: 0 <= i < |ks| ==> ks[i] in m && ca.dom(ks[i]) && cb.dom(m[ks[i]])
    ensures DecodePairs(ca, cb, |ks|, EncodePairs(ca, cb, ks, m) + rest) == (Restrict(m, ks), rest)
    decreases |ks|
  {
    if ks == [] {
      assert EncodePairs(ca, cb, ks, m) + rest == rest;
      assert Restrict(m, ks) == map[];
    } else {
      var l := |ks| - 1;
      var a, b := ks[l], m[ks[l]];
      DecodePairsLaw(ca, cb, ks[..l], m, ca.enc(a) + (cb.enc(b) + rest));
      assert EncodePairs(ca, cb, ks, m) + rest == EncodePairs(ca, cb, ks[..l], m) + (ca.enc(a) + (cb.enc(b) + rest));
      RestrictMore(m, ks, l);
    }
  }

  lemma RestrictMore<A, B>(m: map<A, B>, ks: seq<A>, l: nat)
    requires |ks| == l + 1 && ks[l] in m
    ensures Restrict(m, ks) == Restrict(m, ks[..l])[ks[l] := m[ks[l]]]
  {
    assert ks == ks[..l] + [ks[l]];
  }

  /** The map templates, in any key order and into any map: decoding clears it and rebuilds the encoded one. */
  lemma MapRoundTrip<A(!new), B(!new)>(n: Codec<nat>, ca: Codec<A>, cb: Codec<B>, ks: seq<A>, m: map<A, B>, rest: Bytes)
    requires CountCodec(n) && Lawful(ca) && Lawful(cb) && Enumerates(ks, m.Keys)
    requires forall k :: k in m ==> ca.dom(k) && cb.dom(m[k])
    requires |ks| < COUNT_LIMIT
    ensures DecodeMap(n, ca, cb, EncodeMap(n, ca, cb, ks, m) + rest) == (m, rest)
  {
    var body := EncodePairs(ca, cb, ks, m) + rest;
    assert EncodeMap(n, ca, cb, ks, m) + rest == n.enc(|ks|) + body;
    assert n.dec(n.enc(|ks|) + body) == (|ks|, body);
    DecodePairsLaw(ca, cb, ks, m, rest);
    assert Restrict(m, ks) == m;
  }

  lemma UpdatedSize<A, B>(m: map<A, B>, a: A, b: B)
    ensures |m[a := b]| <= |m| + 1
  {
    assert m[a := b].Keys == m.Keys + {a};
    assert |m[a := b]| == |m[a := b].Keys| && |m| == |m.Keys|;
  }

  lemma {:induction false} DecodedSize<A, B>(ca: Codec<A>, cb: Codec<B>, k: nat, bytes: Bytes)
    ensures |DecodePairs(ca, cb, k, bytes).0| <= k
    decreases k
  {
    if k > 0 {
      DecodedSize(ca, cb, k - 1, bytes);
      var (m, rest) := DecodePairs(ca, cb, k - 1, bytes);
      var (a, rest1) := ca.dec(rest);
      UpdatedSize(m, a, cb.dec(rest1).0);
    }
  }

  lemma {:induction false} EnumeratedSize<A>(ks: seq<A>, keys: set<A>)
    requires Enumerates(ks, keys)
    ensures |ks| == |keys|
    decreases |ks|
  {
    if ks != [] {
      var l := |ks| - 1;
      EnumeratedSize(ks[..l], keys - {ks[l]});
    }
  }

  /** The count is cast to 32 bits: a map survives the round trip if and only if its size fits. */
  lemma MapExact<A(!new), B(!new)>(n: Codec<nat>, ca: Codec<A>, cb: Codec<B>, ks: seq<A>, m: map<A, B>, rest: Bytes)
    requires CountCodec(n) && Lawful(ca) && Lawful(cb) && Enumerates(ks, m.Keys)
    requires forall k :: k in m ==> ca.dom(k) && cb.dom(m[k])
    ensures DecodeMap(n, ca, cb, EncodeMap(n, ca, cb, ks, m) + rest) == (m, rest) <==> |m| < COUNT_LIMIT
  {
    EnumeratedSize(ks, m.Keys);
    assert |m| == |m.Keys|;
    if |m| < COUNT_LIMIT {
      MapRoundTrip(n, ca, cb, ks, m, rest);
    } else {
      var k, body := |ks| % COUNT_LIMIT, EncodePairs(ca, cb, ks, m) + rest;
      assert EncodeMap(n, ca, cb, ks, m) + rest == n.enc(k) + body;
      assert n.dec(n.enc(k) + body) == (k, body);
      DecodedSize(ca, cb, k, body);
    }
  }

  /** The map codec built from a count codec, two element codecs and the key order. */
  function MapCodec<A(==), B>(n: Codec<nat>, ca: Codec<A>, cb: Codec<B>, order: map<A, B> -> seq<A>): Codec<map<A, B>> {
    Codec(m => if Enumerates(order(m), m.Keys) then EncodeMap(n, ca, cb, order(m), m) else [],
          bytes => DecodeMap(n, ca, cb, bytes),
          m => && Enumerates(order(m), m.Keys) && |order(m)| < COUNT_LIMIT
               && forall k | k in m :: ca.dom(k) && cb.dom(m[k]))
  }

  /** Composition: lawful codecs for keys and values give a lawful map codec. */
  lemma MapLawful<A(!new), B(!new)>(n: Codec<nat>, ca: Codec<A>, cb: Codec<B>, order: map<A, B> -> seq<A>)
    requires CountCodec(n) && Lawful(ca) && Lawful(cb)
    ensures Lawful(MapCodec(n, ca, cb, order))
  {
    var mc := MapCodec(n, ca, cb, order);
    forall m, rest | mc.dom(m)
      ensures mc.dec(mc.enc(m) + rest) == (m, rest)
    {
      MapRoundTrip(n, ca, cb, order(m), m, rest);
    }
  }

  lemma Reassociate(a: Bytes, b: Bytes, c: Bytes, d: Bytes)
    ensures a + (b + c) + d == a + (b + (c + d))
  {
  }

  // ---- the wire format ------------------------------------------------------------------------------------

  /** The fields of a message, one after another. */
  function Joined(fields: seq<Bytes>): Bytes {
    if fields == [] then [] else Joined(fields[..|fields| - 1]) + fields[|fields| - 1]
  }

  lemma {:induction false} JoinedFirst(field: Bytes, fields: seq<Bytes>)
    ensures Joined([field] + fields) == field + Joined(fields)
    decreases |fields|
  {
    if fields == [] {
      assert [field] + fields == [field] && [field][..0] == [];
      assert Joined([field]) == Joined([]) + field;
    } else {
      var m := |fields| - 1;
      JoinedFirst(field, fields[..m]);
      assert ([field] + fields)[..m + 1] == [field] + fields[..m];
    }
  }

  /** The encoded elements of a vector, in order. */
  function VectorFields<T>(c: Codec<T>, v: seq<T>): (fields: seq<Bytes>)
    ensures |fields| == |v| && forall i :: 0 <= i < |v| ==> fields[i] == c.enc(v[i])
  {
    seq(|v|, i requires 0 <= i < |v| => c.enc(v[i]))
  }

  lemma {:induction false} ElementsJoined<T>(c: Codec<T>, v: seq<T>)
    ensures EncodeAll(c, v) == Joined(VectorFields(c, v))
    decreases |v|
  {
    if v != [] {
      var m := |v| - 1;
      ElementsJoined(c, v[..m]);
      assert VectorFields(c, v)[..m] == VectorFields(c, v[..m]);
    }
  }

  /** A vector is its count followed by its elements in order. */
  lemma VectorWire<T>(n: Codec<nat>, c: Codec<T>, v: seq<T>)
    requires |v| < COUNT_LIMIT
    ensures EncodeVector(n, c, v) == Joined([n.enc(|v|)] + VectorFields(c, v))
  {
    ElementsJoined(c, v);
    JoinedFirst(n.enc(|v|), VectorFields(c, v));
  }

  /** Key and value of each pair, the key first. */
  function MapFields<A, B>(ca: Codec<A>, cb: Codec<B>, ks: seq<A>, m: map<A, B>): (fields: seq<Bytes>)
    requires forall i :: 0 <= i < |ks| ==> ks[i] in m
    ensures |fields| == 2 * |ks|
    ensures forall i :: 0 <= i < |ks| ==> fields[2 * i] == ca.enc(ks[i]) && fields[2 * i + 1] == cb.enc(m[ks[i]])
  {
    if ks == [] then []
    else
      var l := |ks| - 1;
      MapFields(ca, cb, ks[..l], m) + [ca.enc(ks[l]), cb.enc(m[ks[l]])]
  }

  lemma JoinedTwo(fields: seq<Bytes>, a: Bytes, b: Bytes)
    ensures Joined(fields + [a, b]) == Joined(fields) + (a + b)
  {
    var more := fields + [a, b];
    assert more[..|more| - 1] == fields + [a] && (fields + [a])[..|fields|] == fields;
    assert Joined(fields + [a]) == Joined(fields) + a;
  }

  lemma {:induction false} PairsJoined<A, B>(ca: Codec<A>, cb: Codec<B>, ks: seq<A>, m: map<A, B>)
    requires forall i :: 0 <= i < |ks| ==> ks[i] in m
    ensures EncodePairs(ca, cb, ks, m) == Joined(MapFields(ca, cb, ks, m))
    decreases |ks|
  {
    if ks != [] {
      var l := |ks| - 1;
      PairsJoined(ca, cb, ks[..l], m);
      JoinedTwo(MapFields(ca, cb, ks[..l], m), ca.enc(ks[l]), cb.enc(m[ks[l]]));
    }
  }

  /** A map is its count followed by its pairs in key order, each the key and then the value. */
  lemma MapWire<A, B>(n: Codec<nat>, ca: Codec<A>, cb: Codec<B>, ks: seq<A>, m: map<A, B>)
    requires Enumerates(ks, m.Keys) && |m| < COUNT_LIMIT
    ensures EncodeMap(n, ca, cb, ks, m) == Joined([n.enc(|m|)] + MapFields(ca, cb, ks, m))
  {
    EnumeratedSize(ks, m.Keys);
    assert |m| == |m.Keys|;
    PairsWire(n, ca, cb, ks, m);
  }

  lemma PairsWire<A, B>(n: Codec<nat>, ca: Codec<A>, cb: Codec<B>, ks: seq<A>, m: map<A, B>)
    requires (forall i :: 0 <= i < |ks| ==> ks[i] in m) && |ks| < COUNT_LIMIT
    ensures EncodeMap(n, ca, cb, ks, m) == Joined([n.enc(|ks|)] + MapFields(ca, cb, ks, m))
  {
    PairsJoined(ca, cb, ks, m);
    JoinedFirst(n.enc(|ks|), MapFields(ca, cb, ks, m));
  }

  /** A message of pairs, whose keys may repeat. */
  function PairBytes<A, B>(ca: Codec<A>, cb: Codec<B>, ps: seq<(A, B)>): Bytes {
    if ps == [] then []
    else PairBytes(ca, cb, ps[..|ps| - 1]) + (ca.enc(ps[|ps| - 1].0) + cb.enc(ps[|ps| - 1].1))
  }

  /** m maps every key of ps to the value that comes last with it. */
  ghost predicate LastWins<A, B>(ps: seq<(A, B)>, m: map<A, B>) {
    && (forall a :: a in m ==> exists i :: 0 <= i < |ps| && ps[i].0 == a)
    && forall i :: 0 <= i < |ps| && (forall j :: i < j < |ps| ==> ps[j].0 != ps[i].0) ==>
         ps[i].0 in m && m[ps[i].0] == ps[i].1
  }

  lemma LastWinsMore<A, B>(ps: seq<(A, B)>, m: map<A, B>, l: nat)
    requires |ps| == l + 1 && LastWins(ps[..l], m)
    ensures LastWins(ps, m[ps[l].0 := ps[l].1])
  {
    var m' := m[ps[l].0 := ps[l].1];
    assert forall i :: 0 <= i < l ==> ps[..l][i] == ps[i];
    forall a | a in m'
      ensures exists i :: 0 <= i < |ps| && ps[i].0 == a
    {
      if a in m {
        var i :| 0 <= i < l && ps[..l][i].0 == a;
        assert ps[i].0 == a;
      } else {
        assert ps[l].0 == a;
      }
    }
    forall i | 0 <= i < |ps| && forall j :: i < j < |ps| ==> ps[j].0 != ps[i].0
      ensures ps[i].0 in m' && m'[ps[i].0] == ps[i].1
    {
      if i < l {
        assert ps[l].0 != ps[i].0 && ps[..l][i].0 in m;
      }
    }
  }

  /** Whatever pairs a message holds, the decoded map has for each key the value that came last with it. */
  lemma {:induction false} RepeatedKeys<A(!new), B(!new)>(ca: Codec<A>, cb: Codec<B>, ps: seq<(A, B)>, rest: Bytes)
    requires Lawful(ca) && Lawful(cb) && forall i :: 0 <= i < |ps| ==> ca.dom(ps[i].0) && cb.dom(ps[i].1)
    ensures var (m, left) := DecodePairs(ca, cb, |ps|, PairBytes(ca, cb, ps) + rest); LastWins(ps, m) && left == rest
    decreases |ps|
  {
    if ps == [] {
      assert PairBytes(ca, cb, ps) + rest == rest;
    } else {
      var l := |ps| - 1;
      var a, b := ca.enc(ps[l].0), cb.enc(ps[l].1);
      RepeatedKeys(ca, cb, ps[..l], a + (b + rest));
      assert PairBytes(ca, cb, ps) + rest == PairBytes(ca, cb, ps[..l]) + (a + (b + rest));
      LastWinsMore(ps, DecodePairs(ca, cb, l, PairBytes(ca, cb, ps) + rest).0, l);
    }
  }

  // ---- the loops ------------------------------------------------------------------------------------------

  class Marshall {
    var buf: Bytes

    constructor ()
      ensures buf == []
    {
      buf := [];
    }

    method PutVector<T>(n: Codec<nat>, c: Codec<T>, v: seq<T>)
      requires |v| < COUNT_LIMIT
      modifies this
      ensures buf == old(buf) + EncodeVector(n, c, v)
    {
      buf := buf + n.enc(|v|);
      for i := 0 to |v|
        invariant buf == old(buf) + (n.enc(|v|) + EncodeAll(c, v[..i]))
      {
        buf := buf + c.enc(v[i]);
        assert v[..i + 1][..i] == v[..i];
      }
      assert v[..|v|] == v;
    }

    /** ks is the order in which the iterator visits the keys. */
    method PutMap<A, B>(n: Codec<nat>, ca: Codec<A>, cb: Codec<B>, ks: seq<A>, m: map<A, B>)
      requires forall i :: 0 <= i < |ks| ==> ks[i] in m
      modifies this
      ensures buf == old(buf) + EncodeMap(n, ca, cb, ks, m)
    {
      buf := buf + n.enc(|ks| % COUNT_LIMIT);
      for i := 0 to |ks|
        invariant buf == old(buf) + (n.enc(|ks| % COUNT_LIMIT) + EncodePairs(ca, cb, ks[..i], m))
      {
        var pair := ca.enc(ks[i]) + cb.enc(m[ks[i]]);
        Reassociate(old(buf), n.enc(|ks| % COUNT_LIMIT), EncodePairs(ca, cb, ks[..i], m), pair);
        buf := buf + pair;
        assert ks[..i + 1][..i] == ks[..i];
        assert EncodePairs(ca, cb, ks[..i + 1], m) == EncodePairs(ca, cb, ks[..i], m) + pair;
      }
      assert ks[..|ks|] == ks;
    }
  }

  class Unmarshall {
    var rest: Bytes

    constructor (bytes: Bytes)
      ensures rest == bytes
    {
      rest := bytes;
    }

    /** Elements are appended to what the target vector already holds. */
    method GetVector<T>(n: Codec<nat>, c: Codec<T>, target: seq<T>) returns (v: seq<T>)
      modifies this
      ensures var (new', left) := DecodeVector(n, c, old(rest)); v == target + new' && rest == left
    {
      var (k, body) := n.dec(rest);
      rest, v := body, target;
      for i := 0 to k
        invariant v == target + DecodeMany(c, i, body).0 && rest == DecodeMany(c, i, body).1
      {
        var (z, left) := c.dec(rest);
        rest, v := left, v + [z];
      }
    }

    /** The target map is cleared first. */
    method GetMap<A(==), B>(n: Codec<nat>, ca: Codec<A>, cb: Codec<B>) returns (m: map<A, B>)
      modifies this
      ensures (m, rest) == DecodeMap(n, ca, cb, old(rest))
    {
      var (k, body) := n.dec(rest);
      rest, m := body, map[];
      for i := 0 to k
        invariant (m, rest) == DecodePairs(ca, cb, i, body)
      {
        var (a, left) := ca.dec(rest);
        var (b, left') := cb.dec(left);
        rest, m := left', m[a := b];
      }
    }
  }
}
