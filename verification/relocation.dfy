/** The relocation value: an immutable `(fromNode?, toNode?, shard)` triple.
    An absent `fromNode` means the shard is newly assigned (nobody has to let go
    of it); an absent `toNode` means the shard leaves the universe. Java's null
    references are modelled by `Option`. */
module Relocations {
  import opened Wrappers

  datatype Relocation<N, S> = Relocation(fromNode: Option<N>, toNode: Option<N>, shard: S)

  /** The exceptions the value class can raise. */
  datatype Exception = NullPointer

  /** The constructor: a missing shard is refused with a NullPointerException,
      absent endpoints are accepted, and the getters hand back exactly the
      constructor's arguments. */
  function New<N, S>(fromNode: Option<N>, toNode: Option<N>, shard: Option<S>): (r: Result<Relocation<N, S>, Exception>)
    ensures r.Err? <==> shard.None?
    ensures r.Ok? ==> r.value.fromNode == fromNode && r.value.toNode == toNode
    ensures r.Ok? ==> Some(r.value.shard) == shard
  {
    match shard
    case None => Err(NullPointer)
    case Some(s) => Ok(Relocation(fromNode, toNode, s))
  }

  // ---------------------------------------------------------------------------
  // Equality

  /** Null-safe comparison of two possibly absent values: absent equals only
      absent. This is the evident intent of the private `eq` helper; see
      `EqAsWritten` for the code as written. */
  predicate Eq<X(==)>(l: Option<X>, r: Option<X>)
    ensures Eq(l, r) <==> l == r
  {
    (l.None? && r.None?) || (l.Some? && r.Some? && l.value == r.value)
  }

  /** `a.equals(o)`: true exactly when both endpoints and the shard agree. */
  function Equals<N(==), S(==)>(a: Relocation<N, S>, o: Relocation<N, S>): (r: bool)
    ensures r <==> a == o
  {
    Eq(o.fromNode, a.fromNode) && Eq(o.toNode, a.toNode) && o.shard == a.shard
  }

  /** `eq(l, r)` as written, `(l == null && r == null) || l.equals(r)`: it
      dereferences `l` whenever `l` is null and `r` is not. */
  function EqAsWritten<X(==)>(l: Option<X>, r: Option<X>): (res: Result<bool, Exception>)
    ensures res.Err? <==> l.None? && r.Some?
    ensures res.Ok? ==> (res.value <==> l == r)
  {
    if l.None? && r.None? then Ok(true)
    else if l.None? then Err(NullPointer)
    else Ok(r.Some? && l.value == r.value)
  }

  /** `a.equals(o)` as written, with Java's short-circuiting `&&`. */
  function EqualsAsWritten<N(==), S(==)>(a: Relocation<N, S>, o: Relocation<N, S>): (res: Result<bool, Exception>)
    ensures res.Ok? ==> (res.value <==> a == o)
    ensures res.Err? <==> (o.fromNode.None? && a.fromNode.Some?)
                          || (o.fromNode == a.fromNode && o.toNode.None? && a.toNode.Some?)
  {
    match EqAsWritten(o.fromNode, a.fromNode)
    case Err(e) => Err(e)
    case Ok(sameFrom) =>
      if !sameFrom then Ok(false)
      else
        match EqAsWritten(o.toNode, a.toNode)
        case Err(e) => Err(e)
        case Ok(sameTo) => Ok(sameTo && o.shard == a.shard)
  }

  /** Comparing a relocation against a newly assigned one throws instead of
      answering false. */
  lemma EqualsAsWrittenThrowsOnAbsentSource()
    ensures EqualsAsWritten(Relocation(Some(0), Some(1), 0), Relocation(None, Some(1), 0)) == Err(NullPointer)
    ensures !Equals(Relocation(Some(0), Some(1), 0), Relocation(None, Some(1), 0))
  {
  }

  // ---------------------------------------------------------------------------
  // Hashing

  /** `hc`: the hash of a possibly absent value, 0 for null. */
  function Hc<X>(o: Option<X>, hash: X -> bv32): (h: bv32)
    ensures o.None? ==> h == 0
    ensures o.Some? ==> h == hash(o.value)
  {
    match o
    case None => 0
    case Some(v) => hash(v)
  }

  /** `hashCode`: `hc(fromNode) ^ hc(toNode) ^ shard.hashCode()` on 32-bit ints. */
  function Hash<N, S>(r: Relocation<N, S>, hashNode: N -> bv32, hashShard: S -> bv32): (h: bv32)
    ensures h ^ Hc(r.fromNode, hashNode) ^ Hc(r.toNode, hashNode) == hashShard(r.shard)
    ensures r.fromNode.None? && r.toNode.None? ==> h == hashShard(r.shard)
  {
    Hc(r.fromNode, hashNode) ^ Hc(r.toNode, hashNode) ^ hashShard(r.shard)
  }

  /** The equals/hashCode contract: equal relocations hash equally. */
  lemma EqualsImpliesEqualHash<N, S>(a: Relocation<N, S>, b: Relocation<N, S>, hashNode: N -> bv32, hashShard: S -> bv32)
    requires Equals(a, b)
    ensures Hash(a, hashNode, hashShard) == Hash(b, hashNode, hashShard)
  {
  }

  /** XOR makes the hash blind to direction: a move and its reverse collide. */
  lemma HashIgnoresDirection<N, S>(r: Relocation<N, S>, hashNode: N -> bv32, hashShard: S -> bv32)
    ensures Hash(Relocation(r.toNode, r.fromNode, r.shard), hashNode, hashShard) == Hash(r, hashNode, hashShard)
  {
    var f, t, h := Hc(r.fromNode, hashNode), Hc(r.toNode, hashNode), hashShard(r.shard);
    var rev := Relocation(r.toNode, r.fromNode, r.shard);
    assert Hash(rev, hashNode, hashShard) == t ^ f ^ h;
    assert Hash(r, hashNode, hashShard) == f ^ t ^ h;
    XorSwap(f, t, h);
  }

  /** A self-move hashes like a relocation with no endpoints: to the shard's hash. */
  lemma SelfMoveHashesAsShard<N, S>(n: N, s: S, hashNode: N -> bv32, hashShard: S -> bv32)
    ensures Hash(Relocation(Some(n), Some(n), s), hashNode, hashShard) == hashShard(s)
    ensures Hash(Relocation(None, None, s), hashNode, hashShard) == hashShard(s)
  {
    XorCancel(hashNode(n), hashShard(s));
    XorCancel(0, hashShard(s));
  }

  lemma XorSwap(f: bv32, t: bv32, s: bv32)
    ensures t ^ f ^ s == f ^ t ^ s
  {
  }

  lemma XorCancel(f: bv32, s: bv32)
    ensures f ^ f ^ s == s
  {
  }

  // ---------------------------------------------------------------------------
  // Rendering

  /** `toStringJSON`: `NULL` for an absent value, the value's own text in double
      quotes otherwise. */
  function JsonValue<X>(o: Option<X>, show: X -> string): (r: string)
    ensures o.None? <==> r == "NULL"
    ensures o.Some? ==> |r| >= 2 && r[0] == '"' && r[|r| - 1] == '"' && r[1..|r| - 1] == show(o.value)
  {
    match o
    case None => "NULL"
    case Some(v) =>
      var r := "\"" + show(v) + "\"";
      assert r[1..|r| - 1] == show(v);
      r
  }

  /** Reads back one rendered value: `NULL` is the absent value, a quoted text
      is present; anything else is malformed. */
  function ParseJsonValue(r: string): (o: Result<Option<string>, string>)
    ensures o.Ok? && o.value.None? ==> r == "NULL"
  {
    if r == "NULL" then Ok(None)
    else if |r| >= 2 && r[0] == '"' && r[|r| - 1] == '"' then Ok(Some(r[1..|r| - 1]))
    else Err(r)
  }

  /** Rendering loses nothing: an absent value is told apart from every present
      one, including one whose own text is `NULL`. */
  lemma JsonValueRoundTrip<X>(o: Option<X>, show: X -> string)
    ensures ParseJsonValue(JsonValue(o, show)) == Ok(if o.None? then None else Some(show(o.value)))
  {
  }

  const FromKey: string := "{ \"fromNode\": "
  const ToKey: string := ", \"toNode\": "
  const ShardKey: string := ", \"shard\": "
  const Close: string := " }"

  /** `toString`: `{ "fromNode": …, "toNode": …, "shard": … }`, each value
      rendered by `toStringJSON`. */
  function ToString<N, S>(r: Relocation<N, S>, showNode: N -> string, showShard: S -> string): (s: string)
    ensures |s| >= |FromKey| + 4
    ensures s[..|FromKey|] == FromKey && s[|s| - 2..] == Close
    ensures r.fromNode.None? <==> s[|FromKey|..|FromKey| + 4] == "NULL"
    ensures exists v1, v2, v3 ::
              && v1 == JsonValue(r.fromNode, showNode)
              && v2 == JsonValue(r.toNode, showNode)
              && v3 == JsonValue(Some(r.shard), showShard)
              && s == FromKey + (v1 + (ToKey + (v2 + (ShardKey + (v3 + Close)))))
  {
    var v1 := JsonValue(r.fromNode, showNode);
    var v2 := JsonValue(r.toNode, showNode);
    var v3 := JsonValue(Some(r.shard), showShard);
    var rest := ToKey + (v2 + (ShardKey + (v3 + Close)));
    var tail := v1 + rest;
    assert |v1| >= 2 && |rest| >= 2 && rest[|rest| - 2..] == Close;
    assert tail[..4] == "NULL" <==> r.fromNode.None? by {
      if r.fromNode.None? {
        assert tail[..4] == v1;
      } else {
        assert tail[0] == '"';
      }
    }
    var s := FromKey + tail;
    assert s[..|FromKey|] == FromKey;
    assert s[|FromKey|..|FromKey| + 4] == tail[..4];
    assert s[|s| - 2..] == rest[|rest| - 2..];
    s
  }

  // ---------------------------------------------------------------------------
  // Reading a rendering back

  /** A text with no double quote in it: rendered in quotes, it cannot be
      mistaken for a shorter value followed by more text. */
  predicate QuoteFree(t: string) {
    forall k :: 0 <= k < |t| ==> t[k] != '"'
  }

  /** The shown text of a possibly absent value. */
  function Shown<X>(o: Option<X>, show: X -> string): Option<string> {
    match o
    case None => None
    case Some(v) => Some(show(v))
  }

  /** The position of the first double quote in `t`, or `|t|` when there is
      none. */
  function FirstQuote(t: string): (k: nat)
    ensures k <= |t|
    ensures k < |t| ==> t[k] == '"'
    ensures QuoteFree(t[..k])
  {
    if t == [] || t[0] == '"' then 0
    else
      var k := 1 + FirstQuote(t[1..]);
      assert t[..k] == [t[0]] + t[1..][..k - 1];
      k
  }

  /** The first double quote after a quote-free text is the one right
      behind it. */
  lemma {:induction false} FirstQuoteAfter(v: string, rest: string)
    requires QuoteFree(v)
    ensures FirstQuote(v + "\"" + rest) == |v|
  {
    var u := v + "\"" + rest;
    if v == [] {
      assert u[0] == '"';
    } else {
      assert u[0] == v[0];
      assert u[1..] == v[1..] + "\"" + rest;
      FirstQuoteAfter(v[1..], rest);
    }
  }

  /** `t` with the prefix `p` taken off, when `t` starts with `p`. */
  function After(p: string, t: string): (r: Option<string>)
    ensures r.Some? <==> p <= t
    ensures r.Some? ==> t == p + r.value
  {
    if p <= t then Some(t[|p|..]) else None
  }

  /** Reads one rendered value off the front of `t`: `NULL`, or a quoted text
      running to the next double quote. Answers the value and what follows. */
  function ParseValue(t: string): (r: Result<(Option<string>, string), string>)
    ensures r.Ok? ==> |r.value.1| + 2 <= |t| && EndsWith(t, r.value.1)
    ensures r.Ok? && r.value.0.Some? ==> QuoteFree(r.value.0.value)
    ensures r.Ok? && r.value.0.None? ==> t == "NULL" + r.value.1
  {
    if "NULL" <= t then Ok((None, t[4..]))
    else if t != [] && t[0] == '"' then
      var k := FirstQuote(t[1..]);
      if k < |t| - 1 then Ok((Some(t[1..][..k]), t[1..][k + 1..])) else Err(t)
    else Err(t)
  }

  /** Reads a key and the value after it off the front of `t`. */
  function ParseField(key: string, t: string): (r: Result<(Option<string>, string), string>)
    ensures r.Ok? ==> key <= t
    ensures r.Ok? ==> |r.value.1| + |key| + 2 <= |t| && EndsWith(t, r.value.1)
  {
    match After(key, t)
    case None => Err(t)
    case Some(t1) =>
      var r := ParseValue(t1);
      if r.Ok? then
        assert t[|t| - |r.value.1|..] == t1[|t1| - |r.value.1|..];
        r
      else r
  }

  predicate EndsWith(t: string, u: string) {
    |u| <= |t| && t[|t| - |u|..] == u
  }

  lemma SuffixOfSuffix(a: string, b: string, c: string)
    requires EndsWith(a, b) && EndsWith(b, c)
    ensures EndsWith(a, c)
  {
    assert a[|a| - |c|..] == a[|a| - |b|..][|b| - |c|..];
  }

  /** Reads a whole rendering back into the shown source, target and shard;
      anything that is not laid out as `toString` lays it out is refused. */
  function ParseRelocation(t: string): (r: Result<(Option<string>, Option<string>, string), string>)
    ensures r.Ok? ==> FromKey <= t && EndsWith(t, Close)
    ensures r.Ok? ==> |t| >= |FromKey| + |ToKey| + |ShardKey| + |Close| + 6
  {
    match ParseField(FromKey, t)
    case Err(e) => Err(e)
    case Ok((from, t1)) =>
      match ParseField(ToKey, t1)
      case Err(e) => Err(e)
      case Ok((to, t2)) =>
        match ParseField(ShardKey, t2)
        case Err(e) => Err(e)
        case Ok((shard, t3)) =>
          if shard.None? || t3 != Close then Err(t3)
          else
            SuffixOfSuffix(t, t1, t2);
            SuffixOfSuffix(t, t2, t3);
            Ok((from, to, shard.value))
  }

  /** One rendered value followed by anything reads back as the value's shown
      text and that same rest, provided the shown text holds no double quote. */
  lemma ValueRoundTrip<X>(o: Option<X>, show: X -> string, rest: string)
    requires o.Some? ==> QuoteFree(show(o.value))
    ensures ParseValue(JsonValue(o, show) + rest) == Ok((Shown(o, show), rest))
  {
    var t := JsonValue(o, show) + rest;
    if o.Some? {
      var v := show(o.value);
      assert t[1..] == v + "\"" + rest;
      FirstQuoteAfter(v, rest);
      var k := FirstQuote(t[1..]);
      assert t[1..][..k] == v;
      assert t[1..][k + 1..] == rest;
    } else {
      assert t[..4] == "NULL";
    }
  }

  /** `toString` loses nothing when the shown nodes and shard hold no double
      quote: reading the rendering back gives the shown source, target and
      shard, an absent endpoint as absent. */
  lemma ToStringRoundTrip<N, S>(r: Relocation<N, S>, showNode: N -> string, showShard: S -> string)
    requires r.fromNode.Some? ==> QuoteFree(showNode(r.fromNode.value))
    requires r.toNode.Some? ==> QuoteFree(showNode(r.toNode.value))
    requires QuoteFree(showShard(r.shard))
    ensures ParseRelocation(ToString(r, showNode, showShard))
            == Ok((Shown(r.fromNode, showNode), Shown(r.toNode, showNode), showShard(r.shard)))
  {
    var v1 := JsonValue(r.fromNode, showNode);
    var v2 := JsonValue(r.toNode, showNode);
    var v3 := JsonValue(Some(r.shard), showShard);
    var t2 := ShardKey + (v3 + Close);
    var t1 := ToKey + (v2 + t2);
    assert ToString(r, showNode, showShard) == FromKey + (v1 + t1);
    ValueRoundTrip(r.fromNode, showNode, t1);
    ValueRoundTrip(r.toNode, showNode, t2);
    ValueRoundTrip(Some(r.shard), showShard, Close);
  }
}
