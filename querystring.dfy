/** The querystring namespace: parse a query into an object that maps each
    key to a string or, for a repeated key, to an array of strings, and
    stringify an object back into `key=value` pairs joined by a separator.

    Queries are single-byte strings. The contents of an object (JsObject)
    are its keys, in the order its key set iterates them, and the value
    of each key; a key put for the first time goes last, and putting an
    existing key keeps its place. Keys and values are percent-decoded by
    parse and percent-encoded by stringify. */
module QueryString {
  import opened Wrappers
  import opened Util
  import opened Seqs

  /** The values an object can hold, as far as stringify tells them apart.
      `Scalar` is a number or a boolean, carried as the text String::valueOf
      gives for it; `Object` is a nested object, whose contents stringify
      never looks at. */
  datatype Value = Undefined | Null | Str(s: Bytes) | Scalar(text: Bytes) | Array(elems: seq<Value>) | Object

  /** The contents of a JsObject: its keys in iteration order and the value
      stored under each. */
  datatype Dict = Dict(keys: seq<Bytes>, vals: map<Bytes, Value>)

  const EmptyDict: Dict := Dict([], map[])

  /** The keys listed are exactly the keys stored, each listed once. */
  predicate WellFormed(d: Dict)
  {
    (forall m, n :: 0 <= m < n < |d.keys| ==> d.keys[m] != d.keys[n]) &&
    (forall k :: k in d.vals ==> k in d.keys) &&
    (forall k :: k in d.keys ==> k in d.vals)
  }

  function Lookup(d: Dict, k: Bytes): Option<Value>
  {
    if k in d.vals then Some(d.vals[k]) else None
  }

  /** Every value is a string or an array: the objects parse builds. */
  predicate Shaped(d: Dict)
  {
    forall k :: k in d.vals ==> d.vals[k].Str? || d.vals[k].Array?
  }

  /** JsObject::put: the key now maps to `v`; an existing key keeps its
      place in the key order and a new key goes last. */
  function PutEntry(d: Dict, k: Bytes, v: Value): (r: Dict)
    ensures Shaped(d) && (v.Str? || v.Array?) ==> Shaped(r)
  {
    Dict(if k in d.vals then d.keys else d.keys + [k], d.vals[k := v])
  }

  /** After a put the key maps to the new value and every other key to
      what it mapped to before. */
  lemma PutEntryLookup(d: Dict, k: Bytes, v: Value, k': Bytes)
    ensures Lookup(PutEntry(d, k, v), k) == Some(v)
    ensures k' != k ==> Lookup(PutEntry(d, k, v), k') == Lookup(d, k')
  {
  }

  /** A put keeps every key listed exactly once. */
  lemma PutEntryWellFormed(d: Dict, k: Bytes, v: Value)
    requires WellFormed(d)
    ensures WellFormed(PutEntry(d, k, v))
  {
  }

  /** A JsObject, updated in place by put. */
  class JsObject {
    var keys: seq<Bytes>
    var vals: map<Bytes, Value>

    constructor()
      ensures Contents() == EmptyDict
    {
      keys := [];
      vals := map[];
    }

    function Contents(): Dict
      reads this
    {
      Dict(keys, vals)
    }

    predicate Valid()
      reads this
    {
      WellFormed(Contents())
    }

    function ContainsKey(k: Bytes): (b: bool)
      reads this
      ensures b <==> Lookup(Contents(), k).Some?
    {
      k in vals
    }

    function Get(k: Bytes): (r: Option<Value>)
      reads this
      ensures r == Lookup(Contents(), k)
    {
      if k in vals then Some(vals[k]) else None
    }

    function KeySet(): (ks: seq<Bytes>)
      reads this
      ensures ks == Contents().keys
      ensures Valid() ==> forall k :: k in ks <==> ContainsKey(k)
    {
      keys
    }

    /** put: the key now maps to `v`; a new key goes last in the key
        order, an existing one keeps its place. */
    method Put(k: Bytes, v: Value)
      modifies this
      ensures Contents() == PutEntry(old(Contents()), k, v)
      ensures Get(k) == Some(v)
      ensures old(Valid()) ==> Valid()
    {
      if k !in vals {
        keys := keys + [k];
      }
      vals := vals[k := v];
    }
  }

  // ---------------------------------------------------------------------
  // addPair: string -> array promotion
  // ---------------------------------------------------------------------

  /** What addPair asserts: an existing value is a string or an array. */
  predicate Promotable(d: Dict, k: Bytes)
  {
    k in d.vals ==> d.vals[k].Str? || d.vals[k].Array?
  }

  /** The value addPair stores for a key whose current value is `cur`. */
  function Promote(cur: Option<Value>, v: Bytes): (r: Value)
    requires cur.None? || cur.value.Str? || cur.value.Array?
    ensures r.Str? || r.Array?
  {
    if cur.None? then Str(v)
    else if cur.value.Str? then Array([cur.value, Str(v)])
    else Array(cur.value.elems + [Str(v)])
  }

  /** The object after addPair(obj, k, v). */
  function Added(d: Dict, k: Bytes, v: Bytes): (r: Dict)
    requires Promotable(d, k)
    ensures Shaped(d) ==> Shaped(r)
  {
    PutEntry(d, k, Promote(Lookup(d, k), v))
  }

  /** addPair changes the value of its key only, and promotes it. */
  lemma AddedLookup(d: Dict, k: Bytes, v: Bytes, k': Bytes)
    requires Promotable(d, k)
    ensures Lookup(Added(d, k, v), k) == Some(Promote(Lookup(d, k), v))
    ensures k' != k ==> Lookup(Added(d, k, v), k') == Lookup(d, k')
  {
    PutEntryLookup(d, k, Promote(Lookup(d, k), v), k');
  }

  /** addPair: a new key gets the string `val`; a key holding a string
      gets a two-element array of the old and the new string; an array
      gets `val` appended. */
  method AddPair(obj: JsObject, key: Bytes, val: Bytes)
    requires Promotable(obj.Contents(), key)
    modifies obj
    ensures obj.Contents() == Added(old(obj.Contents()), key, val)
  {
    if obj.ContainsKey(key) {
      var v := obj.Get(key).value;
      if v.Str? {
        obj.Put(key, Array([v, Str(val)]));
      } else {
        obj.Put(key, Array(v.elems + [Str(val)]));
      }
    } else {
      obj.Put(key, Str(val));
    }
  }

  /** The object `acc` after adding the pairs in order. */
  function AddAll(acc: Dict, ps: seq<(Bytes, Bytes)>): (r: Dict)
    requires Shaped(acc)
    ensures Shaped(r)
    decreases |ps|
  {
    if ps == [] then acc
    else Added(AddAll(acc, ps[..|ps| - 1]), ps[|ps| - 1].0, ps[|ps| - 1].1)
  }

  /** Adding pairs keeps every key listed exactly once. */
  lemma {:induction false} AddAllWellFormed(acc: Dict, ps: seq<(Bytes, Bytes)>)
    requires Shaped(acc) && WellFormed(acc)
    ensures WellFormed(AddAll(acc, ps))
    decreases |ps|
  {
    if ps != [] {
      var init := ps[..|ps| - 1];
      var p := ps[|ps| - 1];
      AddAllWellFormed(acc, init);
      var e := AddAll(acc, init);
      PutEntryWellFormed(e, p.0, Promote(Lookup(e, p.0), p.1));
    }
  }

  /** The values paired with `k`, in arrival order. */
  function ValuesFor(ps: seq<(Bytes, Bytes)>, k: Bytes): (vs: seq<Bytes>)
    decreases |ps|
  {
    if ps == [] then []
    else ValuesFor(ps[..|ps| - 1], k) + (if ps[|ps| - 1].0 == k then [ps[|ps| - 1].1] else [])
  }

  function StrAll(vs: seq<Bytes>): (r: seq<Value>)
    ensures |r| == |vs|
    ensures forall j :: 0 <= j < |vs| ==> r[j] == Str(vs[j])
  {
    seq(|vs|, j requires 0 <= j < |vs| => Str(vs[j]))
  }

  /** What a key maps to after the values `vs` arrived for it: nothing, the
      one string, or the array of all the strings in arrival order. */
  function Collapse(vs: seq<Bytes>): Option<Value>
  {
    if |vs| == 0 then None
    else if |vs| == 1 then Some(Str(vs[0]))
    else Some(Array(StrAll(vs)))
  }

  /** One more value moves a key one step along: absent, string, pair,
      longer array. */
  lemma CollapseSnoc(vs: seq<Bytes>, v: Bytes)
    ensures Collapse(vs + [v]) == Some(Promote(Collapse(vs), v))
  {
    if |vs| == 1 {
      assert StrAll(vs + [v]) == [Str(vs[0]), Str(v)];
    } else if |vs| > 1 {
      assert StrAll(vs + [v]) == StrAll(vs) + [Str(v)];
    }
  }

  /** After adding pairs to an empty object, a key maps to the collapse of
      the values that arrived for it. */
  lemma {:induction false} AddAllLookup(ps: seq<(Bytes, Bytes)>, k: Bytes)
    ensures Lookup(AddAll(EmptyDict, ps), k) == Collapse(ValuesFor(ps, k))
    decreases |ps|
  {
    if ps != [] {
      var init := ps[..|ps| - 1];
      var p := ps[|ps| - 1];
      var e := AddAll(EmptyDict, init);
      assert AddAll(EmptyDict, ps) == Added(e, p.0, p.1);
      AddAllLookup(init, k);
      if p.0 == k {
        assert ValuesFor(ps, k) == ValuesFor(init, k) + [p.1];
        CollapseSnoc(ValuesFor(init, k), p.1);
      } else {
        assert ValuesFor(ps, k) == ValuesFor(init, k);
      }
    }
  }

  /** Adding `ps` and then `qs` is adding `ps + qs`. */
  lemma {:induction false} AddAllConcat(acc: Dict, ps: seq<(Bytes, Bytes)>, qs: seq<(Bytes, Bytes)>)
    requires Shaped(acc)
    ensures AddAll(acc, ps + qs) == AddAll(AddAll(acc, ps), qs)
    decreases |qs|
  {
    if qs == [] {
      assert ps + qs == ps;
    } else {
      var init := qs[..|qs| - 1];
      assert (ps + qs)[..|ps + qs| - 1] == ps + init;
      AddAllConcat(acc, ps, init);
    }
  }

  // ---------------------------------------------------------------------
  // parse
  // ---------------------------------------------------------------------

  /** The loop of parse tests for `eq` first, so a byte is a separator only
      when it is `sep` and not also `eq`. */
  predicate IsSep(c: byte, sep: byte, eq: byte)
  {
    c == sep && c != eq
  }

  predicate NoSep(s: Bytes, sep: byte, eq: byte)
  {
    forall j :: 0 <= j < |s| ==> !IsSep(s[j], sep, eq)
  }

  /** The query cut at every separator: the segments parse reads. */
  function Split(s: Bytes, sep: byte, eq: byte): (segs: seq<Bytes>)
    ensures |segs| >= 1
    decreases |s|
  {
    if s == [] then [[]]
    else
      var rest := Split(s[1..], sep, eq);
      if IsSep(s[0], sep, eq) then [[]] + rest
      else [[s[0]] + rest[0]] + rest[1..]
  }

  /** The parts, with `sep` between each two. */
  function Join(sep: byte, parts: seq<Bytes>): Bytes
    decreases |parts|
  {
    if parts == [] then []
    else if |parts| == 1 then parts[0]
    else parts[0] + [sep] + Join(sep, parts[1..])
  }

  lemma {:induction false} JoinSnoc(sep: byte, parts: seq<Bytes>, x: Bytes)
    requires parts != []
    ensures Join(sep, parts + [x]) == Join(sep, parts) + [sep] + x
    decreases |parts|
  {
    if |parts| > 1 {
      assert (parts + [x])[1..] == parts[1..] + [x];
      JoinSnoc(sep, parts[1..], x);
    } else {
      assert (parts + [x])[1..] == [x];
    }
  }

  lemma {:induction false} JoinAppend(sep: byte, xs: seq<Bytes>, ys: seq<Bytes>)
    requires xs != [] && ys != []
    ensures Join(sep, xs + ys) == Join(sep, xs) + [sep] + Join(sep, ys)
    decreases |xs|
  {
    if |xs| > 1 {
      assert (xs + ys)[1..] == xs[1..] + ys;
      JoinAppend(sep, xs[1..], ys);
    } else {
      assert (xs + ys)[1..] == ys;
    }
  }

  /** The segments of a query, joined by the separator, give the query back. */
  lemma {:induction false} JoinSplit(s: Bytes, sep: byte, eq: byte)
    ensures Join(sep, Split(s, sep, eq)) == s
    decreases |s|
  {
    if s != [] {
      var rest := Split(s[1..], sep, eq);
      JoinSplit(s[1..], sep, eq);
      if IsSep(s[0], sep, eq) {
        assert ([[]] + rest)[1..] == rest;
      } else if |rest| > 1 {
        assert ([[s[0]] + rest[0]] + rest[1..])[1..] == rest[1..];
      }
    }
  }

  /** Cutting at the first separator. */
  lemma {:induction false} SplitAt(s: Bytes, k: nat, sep: byte, eq: byte)
    requires k < |s| && IsSep(s[k], sep, eq) && NoSep(s[..k], sep, eq)
    ensures Split(s, sep, eq) == [s[..k]] + Split(s[k + 1..], sep, eq)
    decreases k
  {
    if k > 0 {
      assert s[0] == s[..k][0];
      assert s[1..][..k - 1] == s[..k][1..];
      assert s[1..][k..] == s[k + 1..];
      SplitAt(s[1..], k - 1, sep, eq);
      assert [s[0]] + s[1..][..k - 1] == s[..k];
    }
  }

  /** Text without a separator is a single segment. */
  lemma {:induction false} SplitNoSep(s: Bytes, sep: byte, eq: byte)
    requires NoSep(s, sep, eq)
    ensures Split(s, sep, eq) == [s]
    decreases |s|
  {
    if s != [] {
      assert NoSep(s[1..], sep, eq) by {
        forall j | 0 <= j < |s[1..]| ensures !IsSep(s[1..][j], sep, eq) {
          assert s[1..][j] == s[j + 1];
        }
      }
      SplitNoSep(s[1..], sep, eq);
      assert [s[0]] + s[1..] == s;
    }
  }

  /** A query ending in a separator has an empty last segment. */
  lemma {:induction false} SplitTrailingSep(s: Bytes, sep: byte, eq: byte)
    requires sep != eq
    ensures Split(s + [sep], sep, eq) == Split(s, sep, eq) + [[]]
    decreases |s|
  {
    if s == [] {
      assert ([] + [sep])[1..] == [];
    } else {
      assert (s + [sep])[1..] == s[1..] + [sep];
      SplitTrailingSep(s[1..], sep, eq);
    }
  }

  /** Parts without separators are the segments of their join. */
  lemma {:induction false} SplitJoin(parts: seq<Bytes>, sep: byte, eq: byte)
    requires sep != eq && parts != []
    requires forall n :: 0 <= n < |parts| ==> NoSep(parts[n], sep, eq)
    ensures Split(Join(sep, parts), sep, eq) == parts
    decreases |parts|
  {
    if |parts| == 1 {
      SplitNoSep(parts[0], sep, eq);
    } else {
      var s := Join(sep, parts);
      var k := |parts[0]|;
      assert s == parts[0] + [sep] + Join(sep, parts[1..]);
      assert s[..k] == parts[0];
      assert s[k + 1..] == Join(sep, parts[1..]);
      SplitAt(s, k, sep, eq);
      SplitJoin(parts[1..], sep, eq);
      assert [parts[0]] + parts[1..] == parts;
    }
  }

  /** The position of the last `c` in `s`. */
  function LastIndexOf(s: Bytes, c: byte): (r: Option<nat>)
    ensures r.None? <==> c !in s
    ensures r.Some? ==> r.value < |s| && s[r.value] == c && c !in s[r.value + 1..]
    decreases |s|
  {
    if s == [] then None
    else if s[|s| - 1] == c then Some(|s| - 1)
    else
      var r := LastIndexOf(s[..|s| - 1], c);
      assert s == s[..|s| - 1] + [s[|s| - 1]];
      if r.Some? then
        assert s[r.value + 1..] == s[..|s| - 1][r.value + 1..] + [s[|s| - 1]];
        r
      else r
  }

  /** One more byte: it is the last `c` if it is `c`, else the last one is unchanged. */
  lemma LastIndexOfSnoc(s: Bytes, b: byte, c: byte)
    ensures LastIndexOf(s + [b], c) == if b == c then Some(|s|) else LastIndexOf(s, c)
  {
    assert (s + [b])[..|s|] == s;
  }

  /** The last `c` of `a + [c] + b` is the one in the middle when `b` has none. */
  lemma {:induction false} LastIndexOfMiddle(a: Bytes, c: byte, b: Bytes)
    requires c !in b
    ensures LastIndexOf(a + [c] + b, c) == Some(|a|)
    decreases |b|
  {
    var s := a + [c] + b;
    if b != [] {
      assert s[..|s| - 1] == a + [c] + b[..|b| - 1];
      LastIndexOfMiddle(a, c, b[..|b| - 1]);
    }
  }

  /** The key and the value parse takes from one segment: split at the last
      `eq`, or the whole segment and the empty value when there is none. */
  function SegmentPair(seg: Bytes, eq: byte): (p: (Bytes, Bytes))
    ensures eq !in seg ==> p == (seg, [])
    ensures eq in seg ==> seg == p.0 + [eq] + p.1 && eq !in p.1
  {
    match LastIndexOf(seg, eq)
    case None => (seg, [])
    case Some(i) =>
      assert seg == seg[..i] + [eq] + seg[i + 1..];
      (seg[..i], seg[i + 1..])
  }

  /** Both halves of the segment stay inside the buffer percentDecode reads. */
  predicate SegDecodable(seg: Bytes, eq: byte)
  {
    Decodable(SegmentPair(seg, eq).0) && Decodable(SegmentPair(seg, eq).1)
  }

  predicate AllSegDecodable(segs: seq<Bytes>, eq: byte)
  {
    forall n :: 0 <= n < |segs| ==> SegDecodable(segs[n], eq)
  }

  /** The queries parse decodes without reading past a terminator. */
  predicate ParseDecodable(q: Bytes, sep: byte, eq: byte)
  {
    AllSegDecodable(Split(q, sep, eq), eq)
  }

  function DecodedPair(seg: Bytes, eq: byte): (p: (Bytes, Bytes))
    requires SegDecodable(seg, eq)
  {
    (PercentDecodeString(SegmentPair(seg, eq).0), PercentDecodeString(SegmentPair(seg, eq).1))
  }

  function DecodedPairs(segs: seq<Bytes>, eq: byte): (ps: seq<(Bytes, Bytes)>)
    requires AllSegDecodable(segs, eq)
    ensures |ps| == |segs|
    decreases |segs|
  {
    if segs == [] then []
    else
      var init := segs[..|segs| - 1];
      assert AllSegDecodable(init, eq) by {
        forall n | 0 <= n < |init| ensures SegDecodable(init[n], eq) {
          assert init[n] == segs[n];
        }
      }
      DecodedPairs(init, eq) + [DecodedPair(segs[|segs| - 1], eq)]
  }

  /** What parse returns for a query: nothing for the empty query, otherwise
      the decoded key/value pair of every segment, added in order. */
  function ParseSpec(q: Bytes, sep: byte, eq: byte): (r: Dict)
    requires ParseDecodable(q, sep, eq)
    ensures Shaped(r)
  {
    if q == [] then EmptyDict else AddAll(EmptyDict, DecodedPairs(Split(q, sep, eq), eq))
  }

  /** A parsed object lists each of its keys exactly once. */
  lemma ParseSpecWellFormed(q: Bytes, sep: byte, eq: byte)
    requires ParseDecodable(q, sep, eq)
    ensures WellFormed(ParseSpec(q, sep, eq))
  {
    if q != [] {
      AddAllWellFormed(EmptyDict, DecodedPairs(Split(q, sep, eq), eq));
    }
  }

  /** What the scan of parse knows after reading q[..i]: the segments
      before `keyStart` are `done`, the current one q[keyStart..i] has no
      separator, and `seen` says whether it has an `eq`, the last one being
      just before `valStart`. */
  ghost predicate ScanState(q: Bytes, sep: byte, eq: byte, i: nat, keyStart: nat, valStart: nat,
                            seen: bool, done: seq<Bytes>)
  {
    keyStart <= i <= |q| && valStart <= i &&
    Split(q, sep, eq) == done + Split(q[keyStart..], sep, eq) &&
    AllSegDecodable(done, eq) &&
    NoSep(q[keyStart..i], sep, eq) &&
    (if seen then keyStart < valStart && LastIndexOf(q[keyStart..i], eq) == Some(valStart - 1 - keyStart)
     else LastIndexOf(q[keyStart..i], eq).None?)
  }

  lemma NoSepSnoc(s: Bytes, c: byte, sep: byte, eq: byte)
    requires NoSep(s, sep, eq) && !IsSep(c, sep, eq)
    ensures NoSep(s + [c], sep, eq)
  {
    var t := s + [c];
    forall j | 0 <= j < |t| ensures !IsSep(t[j], sep, eq) {
      if j < |s| { assert t[j] == s[j]; }
    }
  }

  /** The scan state before the first byte. */
  lemma ScanStart(q: Bytes, sep: byte, eq: byte)
    ensures ScanState(q, sep, eq, 0, 0, 0, false, [])
  {
    assert q[0..] == q;
  }

  /** Reading an `eq` byte: the key ends here and the value starts after it. */
  lemma ScanEq(q: Bytes, sep: byte, eq: byte, i: nat, keyStart: nat, valStart: nat, seen: bool, done: seq<Bytes>)
    requires ScanState(q, sep, eq, i, keyStart, valStart, seen, done)
    requires i < |q| && q[i] == eq
    ensures ScanState(q, sep, eq, i + 1, keyStart, i + 1, true, done)
  {
    assert q[keyStart..i + 1] == q[keyStart..i] + [q[i]];
    LastIndexOfSnoc(q[keyStart..i], q[i], eq);
    NoSepSnoc(q[keyStart..i], q[i], sep, eq);
  }

  /** Reading a byte that is neither `eq` nor a separator. */
  lemma ScanOther(q: Bytes, sep: byte, eq: byte, i: nat, keyStart: nat, valStart: nat, seen: bool, done: seq<Bytes>)
    requires ScanState(q, sep, eq, i, keyStart, valStart, seen, done)
    requires i < |q| && q[i] != eq && q[i] != sep
    ensures ScanState(q, sep, eq, i + 1, keyStart, valStart, seen, done)
  {
    assert q[keyStart..i + 1] == q[keyStart..i] + [q[i]];
    LastIndexOfSnoc(q[keyStart..i], q[i], eq);
    NoSepSnoc(q[keyStart..i], q[i], sep, eq);
  }

  /** The key and value the scan holds for the current segment q[keyStart..i]. */
  lemma ScanPair(q: Bytes, sep: byte, eq: byte, i: nat, keyStart: nat, valStart: nat, seen: bool, done: seq<Bytes>)
    requires ScanState(q, sep, eq, i, keyStart, valStart, seen, done)
    ensures SegmentPair(q[keyStart..i], eq)
         == if seen then (q[keyStart..valStart - 1], q[valStart..i]) else (q[keyStart..i], [])
  {
    var seg := q[keyStart..i];
    if seen {
      var p := valStart - 1 - keyStart;
      assert seg[..p] == q[keyStart..valStart - 1];
      assert seg[p + 1..] == q[valStart..i];
    }
  }

  /** A separator after the current segment cuts it off the rest of the query. */
  lemma SplitCurrent(q: Bytes, sep: byte, eq: byte, i: nat, keyStart: nat)
    requires keyStart <= i < |q| && IsSep(q[i], sep, eq)
    requires NoSep(q[keyStart..i], sep, eq)
    ensures Split(q[keyStart..], sep, eq) == [q[keyStart..i]] + Split(q[i + 1..], sep, eq)
  {
    var s := q[keyStart..];
    var k := i - keyStart;
    assert s[..k] == q[keyStart..i];
    assert s[k + 1..] == q[i + 1..];
    assert IsSep(s[k], sep, eq);
    SplitAt(s, k, sep, eq);
  }

  /** A finished segment of a decodable query is decodable. */
  lemma FinishedDecodable(segs: seq<Bytes>, done: seq<Bytes>, seg: Bytes, rest: seq<Bytes>, eq: byte)
    requires segs == done + [seg] + rest && AllSegDecodable(segs, eq)
    ensures SegDecodable(seg, eq) && AllSegDecodable(done, eq) && AllSegDecodable(done + [seg], eq)
  {
    forall n | 0 <= n < |done| ensures SegDecodable(done[n], eq) {
      assert done[n] == segs[n];
    }
    var all := done + [seg];
    assert segs[|done|] == seg;
    forall n | 0 <= n < |all| ensures SegDecodable(all[n], eq) {
      assert all[n] == segs[n];
    }
  }

  /** Reading a separator closes the current segment, which is decodable. */
  lemma ScanSep(q: Bytes, sep: byte, eq: byte, i: nat, keyStart: nat, valStart: nat, seen: bool, done: seq<Bytes>)
    requires ScanState(q, sep, eq, i, keyStart, valStart, seen, done)
    requires i < |q| && q[i] != eq && q[i] == sep
    requires ParseDecodable(q, sep, eq)
    ensures SegDecodable(q[keyStart..i], eq)
    ensures ScanState(q, sep, eq, i + 1, i + 1, valStart, false, done + [q[keyStart..i]])
  {
    var seg, tail := q[keyStart..i], q[i + 1..];
    SplitCurrent(q, sep, eq, i, keyStart);
    var segs := Split(q, sep, eq);
    AppendAssoc(done, [seg], Split(tail, sep, eq));
    FinishedDecodable(segs, done, seg, Split(tail, sep, eq), eq);
    ScanFresh(q, sep, eq, i + 1, valStart, done + [seg]);
  }

  /** At the start of a segment: nothing of it read yet, no `eq` seen. */
  lemma ScanFresh(q: Bytes, sep: byte, eq: byte, k: nat, valStart: nat, done: seq<Bytes>)
    requires valStart <= k <= |q|
    requires Split(q, sep, eq) == done + Split(q[k..], sep, eq)
    requires AllSegDecodable(done, eq)
    ensures ScanState(q, sep, eq, k, k, valStart, false, done)
  {
    assert q[k..k] == [];
  }

  /** The end of the query closes the last segment, which is decodable. */
  lemma ScanEnd(q: Bytes, sep: byte, eq: byte, keyStart: nat, valStart: nat, seen: bool, done: seq<Bytes>)
    requires ScanState(q, sep, eq, |q|, keyStart, valStart, seen, done)
    requires ParseDecodable(q, sep, eq)
    ensures Split(q, sep, eq) == done + [q[keyStart..]]
    ensures SegDecodable(q[keyStart..], eq)
  {
    assert q[keyStart..|q|] == q[keyStart..];
    SplitNoSep(q[keyStart..], sep, eq);
    assert Split(q, sep, eq)[|done|] == q[keyStart..];
  }

  /** Decoding one more segment appends its pair. */
  lemma DecodedPairsSnoc(done: seq<Bytes>, seg: Bytes, eq: byte)
    requires AllSegDecodable(done, eq) && SegDecodable(seg, eq)
    ensures AllSegDecodable(done + [seg], eq)
    ensures DecodedPairs(done + [seg], eq) == DecodedPairs(done, eq) + [DecodedPair(seg, eq)]
  {
    var all := done + [seg];
    assert AllSegDecodable(all, eq) by {
      forall n | 0 <= n < |all| ensures SegDecodable(all[n], eq) {
        if n < |done| { assert all[n] == done[n]; }
      }
    }
    assert all[..|all| - 1] == done;
  }

  /** Adding one more pair. */
  lemma AddAllSnoc(acc: Dict, ps: seq<(Bytes, Bytes)>, p: (Bytes, Bytes))
    requires Shaped(acc)
    ensures AddAll(acc, ps + [p]) == Added(AddAll(acc, ps), p.0, p.1)
  {
    assert (ps + [p])[..|ps|] == ps;
  }

  /** What parse does at a separator and at the end of the query (the two
      copies in the source are alike): take the key seen so far, or the
      whole segment when no `eq` was met, and the value after the last
      `eq`, decode both and add them to the object. */
  method AddSegment(obj: JsObject, q: Bytes, keyStart: nat, valStart: nat, i: nat, key: Option<Bytes>,
                    ghost sep: byte, ghost eq: byte, ghost done: seq<Bytes>, ghost pairs: seq<(Bytes, Bytes)>)
    requires ScanState(q, sep, eq, i, keyStart, valStart, key.Some?, done)
    requires key.Some? ==> key.value == q[keyStart..valStart - 1]
    requires SegDecodable(q[keyStart..i], eq)
    requires obj.Contents() == AddAll(EmptyDict, pairs)
    modifies obj
    ensures obj.Contents() == AddAll(EmptyDict, pairs + [DecodedPair(q[keyStart..i], eq)])
  {
    ScanPair(q, sep, eq, i, keyStart, valStart, key.Some?, done);
    var k: Bytes;
    var val: Bytes;
    if key.Some? {
      k := key.value;
      val := q[valStart..i];
    } else {
      k := q[keyStart..i];
      val := [];
    }
    var dk := PercentDecode(Some(k));
    var dv := PercentDecode(Some(val));
    AddPair(obj, dk, dv);
    AddAllSnoc(EmptyDict, pairs, DecodedPair(q[keyStart..i], eq));
  }

  /** Where the scan is after a prefix of the query: the start of the
      current key, the start of its value, whether an `eq` was seen, and the
      segments already finished. */
  datatype Scan = Scan(keyStart: nat, valStart: nat, seen: bool, done: seq<Bytes>)

  /** Reading q[i]: an `eq` marks where the value starts, a separator
      finishes the segment and starts the next key, any other byte extends
      the segment. */
  function ScanStep(q: Bytes, sep: byte, eq: byte, i: nat, st: Scan): (next: Scan)
    requires st.keyStart <= i < |q| && st.valStart <= i
    ensures next.keyStart <= i + 1 && next.valStart <= i + 1
    ensures (st.seen ==> st.keyStart < st.valStart) ==> (next.seen ==> next.keyStart < next.valStart)
  {
    if q[i] == eq then Scan(st.keyStart, i + 1, true, st.done)
    else if q[i] == sep then Scan(i + 1, st.valStart, false, st.done + [q[st.keyStart..i]])
    else st
  }

  /** The scan after reading q[..i], byte by byte as parse reads it. */
  ghost function ScanTo(q: Bytes, sep: byte, eq: byte, i: nat): (st: Scan)
    requires i <= |q|
    ensures st.keyStart <= i && st.valStart <= i
    ensures st.seen ==> st.keyStart < st.valStart
    decreases i
  {
    if i == 0 then Scan(0, 0, false, []) else ScanStep(q, sep, eq, i - 1, ScanTo(q, sep, eq, i - 1))
  }

  lemma ScanToNext(q: Bytes, sep: byte, eq: byte, i: nat)
    requires i < |q|
    ensures ScanTo(q, sep, eq, i + 1) == ScanStep(q, sep, eq, i, ScanTo(q, sep, eq, i))
  {
  }

  /** Each step keeps the scan in a state ScanState describes. */
  lemma ScanStepState(q: Bytes, sep: byte, eq: byte, i: nat, st: Scan)
    requires i < |q| && ParseDecodable(q, sep, eq)
    requires ScanState(q, sep, eq, i, st.keyStart, st.valStart, st.seen, st.done)
    ensures var next := ScanStep(q, sep, eq, i, st);
      ScanState(q, sep, eq, i + 1, next.keyStart, next.valStart, next.seen, next.done)
  {
    if q[i] == eq {
      assert ScanStep(q, sep, eq, i, st) == Scan(st.keyStart, i + 1, true, st.done);
      ScanEq(q, sep, eq, i, st.keyStart, st.valStart, st.seen, st.done);
    } else if q[i] == sep {
      assert ScanStep(q, sep, eq, i, st) == Scan(i + 1, st.valStart, false, st.done + [q[st.keyStart..i]]);
      ScanSep(q, sep, eq, i, st.keyStart, st.valStart, st.seen, st.done);
    } else {
      assert ScanStep(q, sep, eq, i, st) == st;
      ScanOther(q, sep, eq, i, st.keyStart, st.valStart, st.seen, st.done);
    }
  }

  /** The scan after any prefix is in a state ScanState describes. */
  lemma {:induction false} ScanToState(q: Bytes, sep: byte, eq: byte, i: nat)
    requires i <= |q| && ParseDecodable(q, sep, eq)
    ensures var st := ScanTo(q, sep, eq, i);
      ScanState(q, sep, eq, i, st.keyStart, st.valStart, st.seen, st.done)
    decreases i
  {
    if i == 0 {
      ScanStart(q, sep, eq);
    } else {
      ScanToState(q, sep, eq, i - 1);
      ScanStepState(q, sep, eq, i - 1, ScanTo(q, sep, eq, i - 1));
    }
  }

  /** The object holds the pairs of the finished segments. */
  ghost predicate Built(d: Dict, done: seq<Bytes>, eq: byte)
  {
    AllSegDecodable(done, eq) && d == AddAll(EmptyDict, DecodedPairs(done, eq))
  }

  /** The segment a separator ends is added to the object. */
  method AddSeparatedSegment(obj: JsObject, q: Bytes, i: nat, keyStart: nat, valStart: nat, key: Option<Bytes>,
                             ghost sep: byte, ghost eq: byte, ghost done: seq<Bytes>)
    requires i < |q| && q[i] != eq && q[i] == sep && ParseDecodable(q, sep, eq)
    requires ScanTo(q, sep, eq, i) == Scan(keyStart, valStart, key.Some?, done)
    requires key.Some? ==> key.value == q[keyStart..valStart - 1]
    requires Built(obj.Contents(), done, eq)
    modifies obj
    ensures Built(obj.Contents(), done + [q[keyStart..i]], eq)
  {
    ScanToState(q, sep, eq, i);
    ScanSep(q, sep, eq, i, keyStart, valStart, key.Some?, done);
    AddSegment(obj, q, keyStart, valStart, i, key, sep, eq, done, DecodedPairs(done, eq));
    DecodedPairsSnoc(done, q[keyStart..i], eq);
  }

  /** The segment that runs to the end of the query completes the parse. */
  method AddLastSegment(obj: JsObject, q: Bytes, keyStart: nat, valStart: nat, key: Option<Bytes>,
                        ghost sep: byte, ghost eq: byte, ghost done: seq<Bytes>)
    requires q != [] && ParseDecodable(q, sep, eq)
    requires ScanTo(q, sep, eq, |q|) == Scan(keyStart, valStart, key.Some?, done)
    requires key.Some? ==> key.value == q[keyStart..valStart - 1]
    requires Built(obj.Contents(), done, eq)
    modifies obj
    ensures obj.Contents() == ParseSpec(q, sep, eq)
  {
    ScanToState(q, sep, eq, |q|);
    ScanEnd(q, sep, eq, keyStart, valStart, key.Some?, done);
    assert q[keyStart..|q|] == q[keyStart..];
    ghost var last := q[keyStart..];
    AddSegment(obj, q, keyStart, valStart, |q|, key, sep, eq, done, DecodedPairs(done, eq));
    DecodedPairsSnoc(done, last, eq);
    assert DecodedPairs(Split(q, sep, eq), eq) == DecodedPairs(done, eq) + [DecodedPair(last, eq)];
  }

  /** One turn of parse's loop: an `eq` records the key read so far and
      where the value starts, a separator adds the finished segment's pair
      and starts a new segment, any other byte changes nothing. */
  method ScanByte(obj: JsObject, q: Bytes, i: nat, keyStart: nat, valStart: nat, key: Option<Bytes>,
                  sep: byte, eq: byte, ghost done: seq<Bytes>)
      returns (keyStart': nat, valStart': nat, key': Option<Bytes>, ghost done': seq<Bytes>)
    requires i < |q| && ParseDecodable(q, sep, eq)
    requires ScanTo(q, sep, eq, i) == Scan(keyStart, valStart, key.Some?, done)
    requires key.Some? ==> key.value == q[keyStart..valStart - 1]
    requires Built(obj.Contents(), done, eq)
    modifies obj
    ensures ScanTo(q, sep, eq, i + 1) == Scan(keyStart', valStart', key'.Some?, done')
    ensures key'.Some? ==> key'.value == q[keyStart'..valStart' - 1]
    ensures Built(obj.Contents(), done', eq)
  {
    ScanToNext(q, sep, eq, i);
    keyStart', valStart', key', done' := keyStart, valStart, key, done;
    if q[i] == eq {
      key' := Some(q[keyStart..i]);
      valStart' := i + 1;
    } else if q[i] == sep {
      AddSeparatedSegment(obj, q, i, keyStart, valStart, key, sep, eq, done);
      done' := done + [q[keyStart..i]];
      keyStart' := i + 1;
      key' := None;
    }
  }

  /** parse: a scan that records where the current key starts, where its
      value starts and whether an `eq` was seen, and adds a decoded pair at
      every separator and at the end of the query. */
  method Parse(query: Option<Bytes>, sep: byte, eq: byte) returns (obj: JsObject)
    requires query.Some? ==> ParseDecodable(query.value, sep, eq)
    ensures fresh(obj)
    ensures query.None? ==> obj.Contents() == EmptyDict
    ensures query.Some? ==> obj.Contents() == ParseSpec(query.value, sep, eq)
  {
    obj := new JsObject();
    if query.None? || |query.value| == 0 {
      return;
    }
    var q := query.value;
    var keyStart: nat := 0;
    var valStart: nat := 0;
    var key: Option<Bytes> := None;
    ghost var done: seq<Bytes> := [];
    for i := 0 to |q|
      invariant ScanTo(q, sep, eq, i) == Scan(keyStart, valStart, key.Some?, done)
      invariant key.Some? ==> key.value == q[keyStart..valStart - 1]
      invariant Built(obj.Contents(), done, eq)
    {
      keyStart, valStart, key, done := ScanByte(obj, q, i, keyStart, valStart, key, sep, eq, done);
    }
    AddLastSegment(obj, q, keyStart, valStart, key, sep, eq, done);
  }

  /** A key of a parsed query maps to nothing, to the one decoded value it
      came with, or to the array of all its decoded values in query order. */
  lemma ParseLookup(q: Bytes, sep: byte, eq: byte, k: Bytes)
    requires q != [] && ParseDecodable(q, sep, eq)
    ensures Lookup(ParseSpec(q, sep, eq), k) == Collapse(ValuesFor(DecodedPairs(Split(q, sep, eq), eq), k))
  {
    AddAllLookup(DecodedPairs(Split(q, sep, eq), eq), k);
  }

  /** A parse of a query ending in a separator adds the empty key with the
      empty value after the pairs of the query before it. */
  lemma ParseTrailingSep(q: Bytes, sep: byte, eq: byte)
    requires q != [] && sep != eq && ParseDecodable(q + [sep], sep, eq)
    ensures ParseDecodable(q, sep, eq)
    ensures ParseSpec(q + [sep], sep, eq) == Added(ParseSpec(q, sep, eq), [], [])
  {
    SplitTrailingSep(q, sep, eq);
    var segs := Split(q, sep, eq);
    FinishedDecodable(segs + [[]], segs, [], [], eq);
    DecodedPairsSnoc(segs, [], eq);
    assert DecodedPair([], eq) == ([], []);
    AddAllSnoc(EmptyDict, DecodedPairs(segs, eq), ([], []));
  }

  /** A segment without `eq` is a key with the empty value. */
  lemma SegmentWithoutEq(seg: Bytes, eq: byte)
    requires eq !in seg && SegDecodable(seg, eq)
    ensures DecodedPair(seg, eq) == (PercentDecodeString(seg), [])
  {
  }

  /** A segment with several `eq` bytes splits at the last one. */
  lemma SegmentAtLastEq(a: Bytes, eq: byte, b: Bytes)
    requires eq !in b && Decodable(a) && Decodable(b)
    ensures SegDecodable(a + [eq] + b, eq)
    ensures DecodedPair(a + [eq] + b, eq) == (PercentDecodeString(a), PercentDecodeString(b))
  {
    var seg := a + [eq] + b;
    LastIndexOfMiddle(a, eq, b);
    assert seg[..|a|] == a;
    assert seg[|a| + 1..] == b;
  }

  /** A query without separators is one pair. */
  lemma ParseOneSegment(q: Bytes, sep: byte, eq: byte)
    requires q != [] && NoSep(q, sep, eq) && SegDecodable(q, eq)
    ensures ParseDecodable(q, sep, eq)
    ensures var p := DecodedPair(q, eq);
      ParseSpec(q, sep, eq) == Dict([p.0], map[p.0 := Str(p.1)])
  {
    SplitNoSep(q, sep, eq);
    var p := DecodedPair(q, eq);
    assert DecodedPairs([q], eq) == [p] by {
      assert [q][..0] == [];
    }
    var none: seq<(Bytes, Bytes)> := [];
    assert [p][..0] == none;
    assert AddAll(EmptyDict, [p]) == Added(EmptyDict, p.0, p.1);
    assert Lookup(EmptyDict, p.0) == None;
    var noKeys: seq<Bytes> := [];
    assert noKeys + [p.0] == [p.0];
  }

  // ---------------------------------------------------------------------
  // toString and stringify
  // ---------------------------------------------------------------------

  /** The buffer percentEncode sizes for `s`, 3 * |s| + 1, is a Size. */
  predicate Fits(s: Bytes)
  {
    3 * |s| + 1 < WORD_MODULUS
  }

  /** The values toString can encode. */
  predicate Encodable(v: Value)
  {
    (v.Str? ==> Fits(v.s)) && (v.Scalar? ==> Fits(v.text))
  }

  /** The text percentEncode, as written, writes for `s` is all of its
      escaping: no escape is cut short by the encoder's budget. */
  predicate EncodesFully(s: Bytes)
  {
    Fits(s) && PercentEncodeString(s) == FullEncoding(s)
  }

  predicate ValueEncodesFully(v: Value)
  {
    (v.Str? ==> EncodesFully(v.s)) && (v.Scalar? ==> EncodesFully(v.text))
  }

  /** A text made of unreserved bytes is encoded in full. */
  lemma EncodesFullyUnreserved(s: Bytes)
    requires Fits(s)
    requires forall j :: 0 <= j < |s| ==> IsUnreserved(s[j])
    ensures EncodesFully(s)
  {
    PercentEncodeUnreserved(s);
    FullEncodingUnreserved(s);
  }

  /** What toString would render with the corrected encoder: the full
      escaping of a string or of a scalar's text, and nothing for undefined,
      null, an array or an object. */
  function ValueTextFixed(v: Value): Bytes
  {
    match v
    case Str(s) => FullEncoding(s)
    case Scalar(t) => FullEncoding(t)
    case _ => []
  }

  /** toString: nothing for undefined, null, an array or an object, and
      otherwise percentEncode, as written, of the string or of the scalar's
      text. What it writes is a prefix of the full escaping, and all of it
      when the encoder's budget does not cut it short. */
  function ToText(v: Value): (r: Bytes)
    requires Encodable(v)
    ensures r <= ValueTextFixed(v)
    ensures ValueEncodesFully(v) ==> r == ValueTextFixed(v)
  {
    if v.Undefined? || v.Null? || v.Array? || v.Object? then []
    else if v.Str? then PercentEncodeString(v.s)
    else PercentEncodeString(v.text)
  }

  /** toString renders undefined, null, arrays and objects as the empty
      string, and copies a string made of unreserved bytes. */
  lemma ValueTextCases(v: Value)
    requires Encodable(v)
    ensures v.Undefined? || v.Null? || v.Array? || v.Object? ==> ToText(v) == []
    ensures v.Str? && (forall j :: 0 <= j < |v.s| ==> IsUnreserved(v.s[j])) ==> ToText(v) == v.s
  {
    if v.Str? && forall j :: 0 <= j < |v.s| ==> IsUnreserved(v.s[j]) {
      PercentEncodeUnreserved(v.s);
    }
  }

  /** One `key eq value` pair as stringify writes it. */
  function PairText(k: Bytes, v: Value, eq: byte): Bytes
    requires Fits(k) && Encodable(v)
  {
    ToText(Str(k)) + [eq] + ToText(v)
  }

  /** The pairs an array value expands to, one per element. */
  function ElemTexts(k: Bytes, es: seq<Value>, eq: byte): (ts: seq<Bytes>)
    requires Fits(k) && forall j :: 0 <= j < |es| ==> Encodable(es[j])
    ensures |ts| == |es|
    decreases |es|
  {
    if es == [] then []
    else
      var init := es[..|es| - 1];
      assert forall j :: 0 <= j < |init| ==> init[j] == es[j];
      ElemTexts(k, init, eq) + [PairText(k, es[|es| - 1], eq)]
  }

  /** The keys and values stringify can render. */
  predicate EntryRenderable(k: Bytes, v: Value)
  {
    Fits(k) && Encodable(v) && (v.Array? ==> forall j :: 0 <= j < |v.elems| ==> Encodable(v.elems[j]))
  }

  /** What stringify writes for one key and its value. */
  function EntryText(k: Bytes, v: Value, sep: byte, eq: byte): Bytes
    requires EntryRenderable(k, v)
  {
    if v.Array? then Join(sep, ElemTexts(k, v.elems, eq)) else PairText(k, v, eq)
  }

  /** The objects stringify renders: every key and every value it encodes
      fits the encoder's buffer. */
  predicate Renderable(d: Dict)
  {
    WellFormed(d) && forall k :: k in d.vals ==> EntryRenderable(k, d.vals[k])
  }

  /** The entries of the keys `ks`, in order. */
  function EntryTexts(d: Dict, ks: seq<Bytes>, sep: byte, eq: byte): (ts: seq<Bytes>)
    requires Renderable(d)
    ensures |ts| == |ks|
    decreases |ks|
  {
    if ks == [] then []
    else
      var k := ks[|ks| - 1];
      EntryTexts(d, ks[..|ks| - 1], sep, eq) + [if k in d.vals then EntryText(k, d.vals[k], sep, eq) else []]
  }

  /** What stringify returns for an object: its entries, in key order,
      joined by `sep`. */
  function StringifySpec(d: Dict, sep: byte, eq: byte): Bytes
    requires Renderable(d)
  {
    Join(sep, EntryTexts(d, d.keys, sep, eq))
  }

  // The same renderings with the corrected encoder (see Util.PercentEncodeStringFixed).

  function PairTextFixed(k: Bytes, v: Value, eq: byte): Bytes
  {
    FullEncoding(k) + [eq] + ValueTextFixed(v)
  }

  function ElemTextsFixed(k: Bytes, es: seq<Value>, eq: byte): (ts: seq<Bytes>)
    ensures |ts| == |es|
    decreases |es|
  {
    if es == [] then [] else ElemTextsFixed(k, es[..|es| - 1], eq) + [PairTextFixed(k, es[|es| - 1], eq)]
  }

  function EntryTextFixed(k: Bytes, v: Value, sep: byte, eq: byte): Bytes
  {
    if v.Array? then Join(sep, ElemTextsFixed(k, v.elems, eq)) else PairTextFixed(k, v, eq)
  }

  function EntryTextsFixed(d: Dict, ks: seq<Bytes>, sep: byte, eq: byte): (ts: seq<Bytes>)
    ensures |ts| == |ks|
    decreases |ks|
  {
    if ks == [] then []
    else
      var k := ks[|ks| - 1];
      EntryTextsFixed(d, ks[..|ks| - 1], sep, eq) + [if k in d.vals then EntryTextFixed(k, d.vals[k], sep, eq) else []]
  }

  /** stringify over the corrected encoder. */
  function StringifyFixed(d: Dict, sep: byte, eq: byte): Bytes
  {
    Join(sep, EntryTextsFixed(d, d.keys, sep, eq))
  }

  /** Every key and every string or scalar text of `k` and `v` is encoded in full. */
  predicate EntryEncodesFully(k: Bytes, v: Value)
  {
    EncodesFully(k) && ValueEncodesFully(v) &&
    (v.Array? ==> forall j :: 0 <= j < |v.elems| ==> ValueEncodesFully(v.elems[j]))
  }

  predicate DictEncodesFully(d: Dict)
  {
    WellFormed(d) && forall k :: k in d.vals ==> EntryEncodesFully(k, d.vals[k])
  }

  /** An object whose texts are all encoded in full can be rendered. */
  lemma DictEncodesFullyRenderable(d: Dict)
    requires DictEncodesFully(d)
    ensures Renderable(d)
  {
    forall k | k in d.vals ensures EntryRenderable(k, d.vals[k]) {
      assert EntryEncodesFully(k, d.vals[k]);
    }
  }

  /** The pairs of an array agree with the corrected ones when every text is
      encoded in full. */
  lemma {:induction false} ElemTextsAgree(k: Bytes, es: seq<Value>, eq: byte)
    requires EncodesFully(k) && forall j :: 0 <= j < |es| ==> ValueEncodesFully(es[j])
    ensures Fits(k) && forall j :: 0 <= j < |es| ==> Encodable(es[j])
    ensures ElemTexts(k, es, eq) == ElemTextsFixed(k, es, eq)
    decreases |es|
  {
    if es != [] {
      var init := es[..|es| - 1];
      assert forall j :: 0 <= j < |init| ==> init[j] == es[j];
      ElemTextsAgree(k, init, eq);
      var last := es[|es| - 1];
      assert ValueEncodesFully(last);
      assert ToText(Str(k)) == FullEncoding(k);
      assert PairText(k, last, eq) == PairTextFixed(k, last, eq);
    }
  }

  /** The entries agree with the corrected ones when every text is encoded in full. */
  lemma {:induction false} EntryTextsAgree(d: Dict, ks: seq<Bytes>, sep: byte, eq: byte)
    requires DictEncodesFully(d)
    ensures Renderable(d)
    ensures EntryTexts(d, ks, sep, eq) == EntryTextsFixed(d, ks, sep, eq)
    decreases |ks|
  {
    DictEncodesFullyRenderable(d);
    if ks != [] {
      EntryTextsAgree(d, ks[..|ks| - 1], sep, eq);
      var k := ks[|ks| - 1];
      if k in d.vals {
        var v := d.vals[k];
        assert EntryEncodesFully(k, v);
        if v.Array? {
          ElemTextsAgree(k, v.elems, eq);
        } else {
          assert ToText(Str(k)) == FullEncoding(k);
        }
      }
    }
  }

  /** stringify as written returns what the corrected stringify returns
      whenever the encoder's budget cuts no text short. */
  lemma StringifyAgrees(d: Dict, sep: byte, eq: byte)
    requires DictEncodesFully(d)
    ensures Renderable(d)
    ensures StringifySpec(d, sep, eq) == StringifyFixed(d, sep, eq)
  {
    EntryTextsAgree(d, d.keys, sep, eq);
  }

  /** Appending one part to a join: after a separator unless it is the first. */
  lemma JoinStep(sep: byte, ts: seq<Bytes>, x: Bytes)
    ensures Join(sep, ts + [x]) == (if ts == [] then [] else Join(sep, ts) + [sep]) + x
  {
    if ts == [] {
      assert ts + [x] == [x];
    } else {
      JoinSnoc(sep, ts, x);
    }
  }

  /** The pairs of the first `i + 1` elements: those of the first `i`, then
      the pair of element `i`. */
  lemma ElemTextsSnoc(key: Bytes, ary: seq<Value>, i: nat, eq: byte)
    requires i < |ary|
    requires Fits(key) && forall j :: 0 <= j < |ary| ==> Encodable(ary[j])
    ensures ElemTexts(key, ary[..i + 1], eq) == ElemTexts(key, ary[..i], eq) + [PairText(key, ary[i], eq)]
  {
    assert ary[..i + 1][..i] == ary[..i];
  }

  /** The join of the first `i + 1` pairs of an array extends the join
      of the first `i`. */
  lemma ElemTextsStep(res: Bytes, sep: byte, key: Bytes, ary: seq<Value>, i: nat, eq: byte)
    requires i < |ary|
    requires Fits(key) && forall j :: 0 <= j < |ary| ==> Encodable(ary[j])
    ensures res + Join(sep, ElemTexts(key, ary[..i + 1], eq)) ==
      (if i == 0 then res else res + Join(sep, ElemTexts(key, ary[..i], eq)) + [sep]) + PairText(key, ary[i], eq)
  {
    var before, p := ElemTexts(key, ary[..i], eq), PairText(key, ary[i], eq);
    ElemTextsSnoc(key, ary, i, eq);
    JoinStep(sep, before, p);
    if i == 0 {
      assert before == [];
    } else {
      var j := Join(sep, before);
      AppendAssoc(res, j + [sep], p);
      AppendAssoc(res, j, [sep]);
    }
  }

  /** The join of the first `n + 1` entries extends the join of the
      first `n`. */
  lemma EntryTextsStep(d: Dict, keys: seq<Bytes>, n: nat, sep: byte, eq: byte)
    requires Renderable(d) && n < |keys| && keys[n] in d.vals
    ensures Join(sep, EntryTexts(d, keys[..n + 1], sep, eq)) ==
      (if n == 0 then [] else Join(sep, EntryTexts(d, keys[..n], sep, eq)) + [sep]) + EntryText(keys[n], d.vals[keys[n]], sep, eq)
  {
    assert keys[..n + 1][..n] == keys[..n];
    JoinStep(sep, EntryTexts(d, keys[..n], sep, eq), EntryText(keys[n], d.vals[keys[n]], sep, eq));
  }

  /** Appends one `key eq value` pair to the buffer `res`. */
  method AppendPair(res: Bytes, key: Bytes, v: Value, eq: byte) returns (r: Bytes)
    requires Fits(key) && Encodable(v)
    ensures r == res + PairText(key, v, eq)
  {
    var kt := ToText(Str(key));
    var vt := ToText(v);
    r := res + kt + [eq] + vt;
  }

  /** Appends the pairs of an array value to the buffer `res`, a
      separator between each two. */
  method AppendArray(res: Bytes, key: Bytes, ary: seq<Value>, sep: byte, eq: byte) returns (r: Bytes)
    requires Fits(key) && forall j :: 0 <= j < |ary| ==> Encodable(ary[j])
    ensures r == res + Join(sep, ElemTexts(key, ary, eq))
  {
    r := res;
    for i := 0 to |ary|
      invariant r == res + Join(sep, ElemTexts(key, ary[..i], eq))
    {
      if i > 0 {
        r := r + [sep];
      }
      r := AppendPair(r, key, ary[i], eq);
      ElemTextsStep(res, sep, key, ary, i, eq);
    }
    assert ary[..|ary|] == ary;
  }

  /** stringify: a null object gives the empty string; otherwise the
      entries are appended in key order, a separator before all but the
      first, and an array value writes one pair per element. */
  method Stringify(obj: JsObject?, sep: byte, eq: byte) returns (r: Bytes)
    requires obj != null ==> Renderable(obj.Contents())
    ensures obj == null ==> r == []
    ensures obj != null ==> r == StringifySpec(obj.Contents(), sep, eq)
    ensures obj != null && DictEncodesFully(obj.Contents()) ==> r == StringifyFixed(obj.Contents(), sep, eq)
  {
    if obj == null {
      return [];
    }
    ghost var d := obj.Contents();
    var res: Bytes := [];
    var keys := obj.KeySet();
    var first := true;
    var n := 0;
    while n < |keys|
      invariant 0 <= n <= |keys|
      invariant first <==> n == 0
      invariant res == Join(sep, EntryTexts(d, keys[..n], sep, eq))
    {
      if first {
        first := false;
      } else {
        res := res + [sep];
      }
      var key := keys[n];
      var val := obj.Get(key).value;
      if val.Array? {
        res := AppendArray(res, key, val.elems, sep, eq);
      } else {
        res := AppendPair(res, key, val, eq);
      }
      EntryTextsStep(d, keys, n, sep, eq);
      n := n + 1;
    }
    assert keys[..n] == keys;
    r := res;
    if DictEncodesFully(d) {
      StringifyAgrees(d, sep, eq);
    }
  }
}
