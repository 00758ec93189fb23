/** parse undoes stringify: an object of strings and arrays of strings,
    stringified with a separator and an `eq` byte that the percent encoder
    never writes, parses back to the same object, keys in the same order.
    This holds for stringify over the corrected encoder, and for stringify
    as written only when its encoder cuts no key and no string short: the
    object {"k": "  "} does not come back.

    An array of one element does not come back (parse gives the string),
    nor does an empty array, whose entry is empty; the objects below have
    neither. */
module QueryStringRoundTrip {
  import opened Wrappers
  import opened Util
  import opened QueryString
  import opened Seqs

  /** The bytes the percent encoder never writes: neither unreserved nor '%'. */
  predicate Delimiter(c: byte)
  {
    !IsUnreserved(c) && c != PERCENT
  }

  /** The values parse can give back: a string, or an array of at least two
      strings; each string fits the encoder's buffer. */
  predicate Reparsable(v: Value)
  {
    (v.Str? && Fits(v.s)) ||
    (v.Array? && |v.elems| >= 2 &&
     forall j :: 0 <= j < |v.elems| ==> v.elems[j].Str? && Fits(v.elems[j].s))
  }

  /** The objects the round trip holds for. */
  predicate RoundTrippable(d: Dict)
  {
    WellFormed(d) && forall k :: k in d.vals ==> Fits(k) && Reparsable(d.vals[k])
  }

  /** The strings among `es`, in order. */
  function StrsOf(es: seq<Value>): seq<Bytes>
    decreases |es|
  {
    if es == [] then []
    else StrsOf(es[..|es| - 1]) + (if es[|es| - 1].Str? then [es[|es| - 1].s] else [])
  }

  /** The strings a value stands for: itself, or the elements of an array. */
  function Strings(v: Value): seq<Bytes>
  {
    if v.Str? then [v.s] else if v.Array? then StrsOf(v.elems) else []
  }

  /** One segment of the query stringify writes. */
  function SegText(k: Bytes, s: Bytes, eq: byte): Bytes
  {
    FullEncoding(k) + [eq] + FullEncoding(s)
  }

  /** The segments stringify writes for the pairs `ps`, in order. */
  function SegTexts(ps: seq<(Bytes, Bytes)>, eq: byte): (ts: seq<Bytes>)
    ensures |ts| == |ps|
    decreases |ps|
  {
    if ps == [] then [] else SegTexts(ps[..|ps| - 1], eq) + [SegText(ps[|ps| - 1].0, ps[|ps| - 1].1, eq)]
  }

  /** The pairs of a key with the strings `vs`. */
  function KeyPairs(k: Bytes, vs: seq<Bytes>): (ps: seq<(Bytes, Bytes)>)
    ensures |ps| == |vs|
    decreases |vs|
  {
    if vs == [] then [] else KeyPairs(k, vs[..|vs| - 1]) + [(k, vs[|vs| - 1])]
  }

  /** The pairs of the first `n` keys of `d`, in order. */
  function AllPairs(d: Dict, n: nat): seq<(Bytes, Bytes)>
    requires n <= |d.keys|
  {
    if n == 0 then []
    else
      var k := d.keys[n - 1];
      AllPairs(d, n - 1) + (if k in d.vals then KeyPairs(k, Strings(d.vals[k])) else [])
  }

  /** The first `n` keys of `d` and their values. */
  function Prefix(d: Dict, n: nat): Dict
    requires n <= |d.keys|
  {
    Dict(d.keys[..n], map k | k in d.keys[..n] && k in d.vals :: d.vals[k])
  }

  /** Pairs whose keys and values fit the encoder's buffer. */
  predicate PairsFit(ps: seq<(Bytes, Bytes)>)
  {
    forall i :: 0 <= i < |ps| ==> Fits(ps[i].0) && Fits(ps[i].1)
  }

  /** Parts that are not empty and hold no separator. */
  predicate Clean(parts: seq<Bytes>, sep: byte, eq: byte)
  {
    forall n :: 0 <= n < |parts| ==> |parts[n]| > 0 && NoSep(parts[n], sep, eq)
  }

  // ---------------------------------------------------------------------
  // The values of an array
  // ---------------------------------------------------------------------

  /** Of an array of strings, StrsOf takes every element. */
  lemma {:induction false} StrsOfAll(es: seq<Value>)
    requires forall j :: 0 <= j < |es| ==> es[j].Str?
    ensures |StrsOf(es)| == |es|
    ensures forall j :: 0 <= j < |es| ==> StrsOf(es)[j] == es[j].s
    decreases |es|
  {
    if es != [] {
      var init := es[..|es| - 1];
      assert forall j :: 0 <= j < |init| ==> init[j] == es[j];
      StrsOfAll(init);
      assert StrsOf(es) == StrsOf(init) + [es[|es| - 1].s];
    }
  }

  /** A value parse can give back has at least one string, each fits, and
      adding them in order builds the value again. */
  lemma StringsOf(v: Value)
    requires Reparsable(v)
    ensures |Strings(v)| >= 1
    ensures forall j :: 0 <= j < |Strings(v)| ==> Fits(Strings(v)[j])
    ensures Collapse(Strings(v)) == Some(v)
  {
    if v.Array? {
      var es := v.elems;
      StrsOfAll(es);
      var vs := StrsOf(es);
      assert StrAll(vs) == es by {
        forall j | 0 <= j < |es| ensures StrAll(vs)[j] == es[j] {
          assert es[j] == Str(es[j].s);
        }
      }
    }
  }

  /** The pairs of the first `m` elements are the segments of their strings. */
  predicate ElemSegUpTo(k: Bytes, es: seq<Value>, m: nat, eq: byte)
    requires m <= |es|
  {
    ElemTextsFixed(k, es[..m], eq) == SegTexts(KeyPairs(k, StrsOf(es[..m])), eq)
  }

  /** One more string element adds one pair and one segment, the same text. */
  lemma ElemSegStep(k: Bytes, es: seq<Value>, m: nat, eq: byte)
    requires m < |es| && es[m].Str?
    requires ElemSegUpTo(k, es, m, eq)
    ensures ElemSegUpTo(k, es, m + 1, eq)
  {
    var init, e := es[..m], es[m];
    TakeSnoc(es, m);
    DropLast(init, e);
    var vs := StrsOf(es[..m + 1]);
    assert vs == StrsOf(init) + [e.s];
    DropLast(StrsOf(init), e.s);
    var ps := KeyPairs(k, vs);
    assert ps == KeyPairs(k, StrsOf(init)) + [(k, e.s)];
    DropLast(KeyPairs(k, StrsOf(init)), (k, e.s));
    assert e == Str(e.s);
    assert PairTextFixed(k, e, eq) == SegText(k, e.s, eq);
  }

  /** The pairs of an array of strings: its key with each element. */
  lemma ElemSegTexts(k: Bytes, es: seq<Value>, eq: byte)
    requires forall j :: 0 <= j < |es| ==> es[j].Str?
    ensures ElemTextsFixed(k, es, eq) == SegTexts(KeyPairs(k, StrsOf(es)), eq)
  {
    TakeNone(es);
    var m := 0;
    while m < |es|
      invariant m <= |es| && ElemSegUpTo(k, es, m, eq)
    {
      ElemSegStep(k, es, m, eq);
      m := m + 1;
    }
    TakeAll(es);
  }

  /** A string value is one pair. */
  lemma StrSegTexts(k: Bytes, s: Bytes, eq: byte)
    ensures SegTexts(KeyPairs(k, [s]), eq) == [SegText(k, s, eq)]
  {
    var noStrs: seq<Bytes> := [];
    var noPairs: seq<(Bytes, Bytes)> := [];
    var noSegs: seq<Bytes> := [];
    assert [s][..0] == noStrs;
    assert KeyPairs(k, [s]) == noPairs + [(k, s)];
    assert [(k, s)][..0] == noPairs;
    assert SegTexts([(k, s)], eq) == noSegs + [SegText(k, s, eq)];
  }

  /** The entry of a key is the join of the segments of its pairs. */
  lemma EntrySegTexts(k: Bytes, v: Value, sep: byte, eq: byte)
    requires Reparsable(v)
    ensures EntryTextFixed(k, v, sep, eq) == Join(sep, SegTexts(KeyPairs(k, Strings(v)), eq))
  {
    if v.Str? {
      StrSegTexts(k, v.s, eq);
    } else {
      ElemSegTexts(k, v.elems, eq);
    }
  }

  lemma {:induction false} SegTextsConcat(ps: seq<(Bytes, Bytes)>, qs: seq<(Bytes, Bytes)>, eq: byte)
    ensures SegTexts(ps + qs, eq) == SegTexts(ps, eq) + SegTexts(qs, eq)
    decreases |qs|
  {
    if qs == [] {
      assert ps + qs == ps;
    } else {
      var init := qs[..|qs| - 1];
      assert (ps + qs)[..|ps + qs| - 1] == ps + init;
      SegTextsConcat(ps, init, eq);
    }
  }

  lemma {:induction false} SegTextsAt(ps: seq<(Bytes, Bytes)>, eq: byte)
    ensures forall i :: 0 <= i < |ps| ==> SegTexts(ps, eq)[i] == SegText(ps[i].0, ps[i].1, eq)
    decreases |ps|
  {
    if ps != [] {
      var init := ps[..|ps| - 1];
      SegTextsAt(init, eq);
      var ts := SegTexts(ps, eq);
      assert ts == SegTexts(init, eq) + [SegText(ps[|ps| - 1].0, ps[|ps| - 1].1, eq)];
      forall i | 0 <= i < |ps| ensures ts[i] == SegText(ps[i].0, ps[i].1, eq) {
        if i < |init| {
          assert init[i] == ps[i];
        }
      }
    }
  }

  lemma {:induction false} KeyPairsAt(k: Bytes, vs: seq<Bytes>)
    ensures forall i :: 0 <= i < |vs| ==> KeyPairs(k, vs)[i] == (k, vs[i])
    decreases |vs|
  {
    if vs != [] {
      var init := vs[..|vs| - 1];
      KeyPairsAt(k, init);
      assert forall i :: 0 <= i < |init| ==> init[i] == vs[i];
    }
  }

  // ---------------------------------------------------------------------
  // The query is the join of the segments
  // ---------------------------------------------------------------------

  /** One more entry after a join that matches the segments so far. */
  lemma JoinMore(ets: seq<Bytes>, e: Bytes, before: seq<(Bytes, Bytes)>, kps: seq<(Bytes, Bytes)>,
                 sep: byte, eq: byte)
    requires Join(sep, ets) == Join(sep, SegTexts(before, eq))
    requires e == Join(sep, SegTexts(kps, eq)) && kps != []
    requires ets == [] <==> before == []
    ensures Join(sep, ets + [e]) == Join(sep, SegTexts(before + kps, eq))
  {
    SegTextsConcat(before, kps, eq);
    if ets == [] {
      assert ets + [e] == [e];
      assert SegTexts(before, eq) + SegTexts(kps, eq) == SegTexts(kps, eq);
    } else {
      JoinSnoc(sep, ets, e);
      JoinAppend(sep, SegTexts(before, eq), SegTexts(kps, eq));
    }
  }

  /** One more entry is the segments of one more key. */
  lemma EntriesStep(d: Dict, n: nat, sep: byte, eq: byte)
    requires 0 < n <= |d.keys| && d.keys[n - 1] in d.vals && Reparsable(d.vals[d.keys[n - 1]])
    requires Join(sep, EntryTextsFixed(d, d.keys[..n - 1], sep, eq)) == Join(sep, SegTexts(AllPairs(d, n - 1), eq))
    requires n > 1 ==> AllPairs(d, n - 1) != []
    ensures Join(sep, EntryTextsFixed(d, d.keys[..n], sep, eq)) == Join(sep, SegTexts(AllPairs(d, n), eq))
    ensures AllPairs(d, n) != []
  {
    var k := d.keys[n - 1];
    var v := d.vals[k];
    EntrySegTexts(k, v, sep, eq);
    StringsOf(v);
    var ets := EntryTextsFixed(d, d.keys[..n - 1], sep, eq);
    var kps := KeyPairs(k, Strings(v));
    assert d.keys[..n][..n - 1] == d.keys[..n - 1];
    assert EntryTextsFixed(d, d.keys[..n], sep, eq) == ets + [EntryTextFixed(k, v, sep, eq)];
    assert AllPairs(d, n) == AllPairs(d, n - 1) + kps;
    JoinMore(ets, EntryTextFixed(k, v, sep, eq), AllPairs(d, n - 1), kps, sep, eq);
  }

  /** Joining the entries is joining the segments of all the pairs. */
  lemma {:induction false} EntriesJoin(d: Dict, n: nat, sep: byte, eq: byte)
    requires RoundTrippable(d) && n <= |d.keys|
    ensures Join(sep, EntryTextsFixed(d, d.keys[..n], sep, eq)) == Join(sep, SegTexts(AllPairs(d, n), eq))
    ensures n > 0 ==> AllPairs(d, n) != []
    decreases n
  {
    if n > 0 {
      EntriesJoin(d, n - 1, sep, eq);
      assert Join(sep, EntryTextsFixed(d, d.keys[..n - 1], sep, eq)) == Join(sep, SegTexts(AllPairs(d, n - 1), eq));
      EntriesStep(d, n, sep, eq);
    }
  }

  lemma PairsFitConcat(xs: seq<(Bytes, Bytes)>, ys: seq<(Bytes, Bytes)>)
    requires PairsFit(xs) && PairsFit(ys)
    ensures PairsFit(xs + ys)
  {
    var all := xs + ys;
    forall i | 0 <= i < |all| ensures Fits(all[i].0) && Fits(all[i].1) {
      if i < |xs| {
        assert all[i] == xs[i];
      } else {
        assert all[i] == ys[i - |xs|];
      }
    }
  }

  lemma KeyPairsFit(k: Bytes, vs: seq<Bytes>)
    requires Fits(k) && forall j :: 0 <= j < |vs| ==> Fits(vs[j])
    ensures PairsFit(KeyPairs(k, vs))
  {
    KeyPairsAt(k, vs);
  }

  /** The pairs of one more key fit. */
  lemma FitStep(d: Dict, n: nat)
    requires RoundTrippable(d) && 0 < n <= |d.keys|
    requires PairsFit(AllPairs(d, n - 1))
    ensures PairsFit(AllPairs(d, n))
  {
    var k := d.keys[n - 1];
    var vs := Strings(d.vals[k]);
    StringsOf(d.vals[k]);
    KeyPairsFit(k, vs);
    assert AllPairs(d, n) == AllPairs(d, n - 1) + KeyPairs(k, vs);
    PairsFitConcat(AllPairs(d, n - 1), KeyPairs(k, vs));
  }

  /** Every key and string of a round-trippable object fits the encoder. */
  lemma {:induction false} AllPairsFit(d: Dict, n: nat)
    requires RoundTrippable(d) && n <= |d.keys|
    ensures PairsFit(AllPairs(d, n))
    decreases n
  {
    if n > 0 {
      AllPairsFit(d, n - 1);
      assert PairsFit(AllPairs(d, n - 1));
      FitStep(d, n);
    }
  }

  /** The encoding of a string holds no delimiter. */
  lemma EncodedNoDelimiter(s: Bytes, c: byte)
    requires Delimiter(c)
    ensures c !in FullEncoding(s)
    ensures forall j :: 0 <= j < |FullEncoding(s)| ==> FullEncoding(s)[j] != c
  {
    FullEncodingAlphabet(s);
  }

  /** A segment is not empty and holds no separator. */
  lemma SegClean(k: Bytes, s: Bytes, sep: byte, eq: byte)
    requires Delimiter(sep) && sep != eq
    ensures |SegText(k, s, eq)| > 0 && NoSep(SegText(k, s, eq), sep, eq)
  {
    var a, b := FullEncoding(k), FullEncoding(s);
    EncodedNoDelimiter(k, sep);
    EncodedNoDelimiter(s, sep);
    var t := a + [eq] + b;
    forall j | 0 <= j < |t| ensures !IsSep(t[j], sep, eq) {
      if j < |a| {
        assert t[j] == a[j];
      } else if j > |a| {
        assert t[j] == b[j - |a| - 1];
      }
    }
  }

  /** A join of parts that are not empty is not empty. */
  lemma JoinNotEmpty(sep: byte, parts: seq<Bytes>)
    requires parts != [] && |parts[0]| > 0
    ensures Join(sep, parts) != []
  {
    if |parts| > 1 {
      assert Join(sep, parts)[0] == parts[0][0];
    }
  }

  // ---------------------------------------------------------------------
  // The segments parse back to the pairs
  // ---------------------------------------------------------------------

  /** A segment decodes to its key and its string. */
  lemma SegDecodes(k: Bytes, s: Bytes, eq: byte)
    requires Delimiter(eq) && Fits(k) && Fits(s)
    ensures SegDecodable(SegText(k, s, eq), eq)
    ensures DecodedPair(SegText(k, s, eq), eq) == (k, s)
  {
    PercentRoundTripFixed(k);
    PercentRoundTripFixed(s);
    EncodedNoDelimiter(s, eq);
    SegmentAtLastEq(FullEncoding(k), eq, FullEncoding(s));
  }

  lemma {:induction false} SegTextsDecode(ps: seq<(Bytes, Bytes)>, eq: byte)
    requires Delimiter(eq) && PairsFit(ps)
    ensures AllSegDecodable(SegTexts(ps, eq), eq)
    ensures DecodedPairs(SegTexts(ps, eq), eq) == ps
    decreases |ps|
  {
    if ps != [] {
      var init := ps[..|ps| - 1];
      var p := ps[|ps| - 1];
      assert forall i :: 0 <= i < |init| ==> init[i] == ps[i];
      SegTextsDecode(init, eq);
      SegDecodes(p.0, p.1, eq);
      DecodedPairsSnoc(SegTexts(init, eq), SegText(p.0, p.1, eq), eq);
      Snoc(ps);
    }
  }

  /** A query made of the segments of pairs that fit, joined by a separator
      the encoder never writes, parses as those pairs added in order. */
  lemma ParsePairs(ps: seq<(Bytes, Bytes)>, sep: byte, eq: byte)
    requires ps != [] && PairsFit(ps)
    requires sep != eq && Delimiter(sep) && Delimiter(eq)
    ensures ParseDecodable(Join(sep, SegTexts(ps, eq)), sep, eq)
    ensures ParseSpec(Join(sep, SegTexts(ps, eq)), sep, eq) == AddAll(EmptyDict, ps)
  {
    var segs := SegTexts(ps, eq);
    SegTextsAt(ps, eq);
    forall i | 0 <= i < |segs| ensures |segs[i]| > 0 && NoSep(segs[i], sep, eq) {
      SegClean(ps[i].0, ps[i].1, sep, eq);
    }
    SplitJoin(segs, sep, eq);
    JoinNotEmpty(sep, segs);
    SegTextsDecode(ps, eq);
  }

  // ---------------------------------------------------------------------
  // Adding the pairs builds the object
  // ---------------------------------------------------------------------

  /** Adding the values `vs` of a new key to `acc` puts their collapse. */
  predicate FreshBuilt(acc: Dict, k: Bytes, vs: seq<Bytes>)
    requires Shaped(acc) && vs != []
  {
    AddAll(acc, KeyPairs(k, vs)) == PutEntry(acc, k, Collapse(vs).value)
  }

  /** The first value of a new key is put as a string. */
  lemma AddAllFreshOne(acc: Dict, k: Bytes, v: Bytes)
    requires Shaped(acc) && k !in acc.vals
    ensures FreshBuilt(acc, k, [v])
  {
    var ps := KeyPairs(k, [v]);
    TakeNone([v]);
    assert ps == [(k, v)];
    TakeNone(ps);
    assert AddAll(acc, ps) == Added(acc, k, v);
  }

  /** One more value of the new key promotes what the others built. */
  lemma AddAllFreshStep(acc: Dict, k: Bytes, init: seq<Bytes>, v: Bytes)
    requires Shaped(acc) && k !in acc.vals && init != []
    requires FreshBuilt(acc, k, init)
    ensures FreshBuilt(acc, k, init + [v])
  {
    var vs := init + [v];
    var ps := KeyPairs(k, vs);
    DropLast(init, v);
    assert ps[..|ps| - 1] == KeyPairs(k, init);
    CollapseSnoc(init, v);
    var mid := PutEntry(acc, k, Collapse(init).value);
    assert AddAll(acc, ps) == Added(mid, k, v);
    assert mid.vals[k := Collapse(vs).value] == acc.vals[k := Collapse(vs).value];
  }

  /** The values of a new key, added in order, collapse into its value. */
  lemma AddAllFresh(acc: Dict, k: Bytes, vs: seq<Bytes>)
    requires Shaped(acc) && k !in acc.vals && vs != []
    ensures AddAll(acc, KeyPairs(k, vs)) == PutEntry(acc, k, Collapse(vs).value)
  {
    TakeNone(vs);
    TakeSnoc(vs, 0);
    AddAllFreshOne(acc, k, vs[0]);
    var m := 1;
    while m < |vs|
      invariant 1 <= m <= |vs| && FreshBuilt(acc, k, vs[..m])
    {
      TakeSnoc(vs, m);
      AddAllFreshStep(acc, k, vs[..m], vs[m]);
      m := m + 1;
    }
    TakeAll(vs);
  }

  /** One more key of a well-formed object: it is new, and goes last. */
  lemma PrefixStep(d: Dict, n: nat)
    requires WellFormed(d) && 0 < n <= |d.keys|
    ensures d.keys[n - 1] !in Prefix(d, n - 1).vals
    ensures Prefix(d, n) == PutEntry(Prefix(d, n - 1), d.keys[n - 1], d.vals[d.keys[n - 1]])
  {
    var k := d.keys[n - 1];
    var p, q := Prefix(d, n - 1), Prefix(d, n);
    TakeSnoc(d.keys, n - 1);
    var front := d.keys[..n - 1];
    forall j | 0 <= j < |front| ensures front[j] != k {
      assert front[j] == d.keys[j];
    }
    assert q.keys == p.keys + [k];
    assert q.vals == p.vals[k := d.vals[k]];
  }

  lemma PrefixEmpty(d: Dict)
    ensures Prefix(d, 0) == EmptyDict
  {
    var none: seq<Bytes> := [];
    assert d.keys[..0] == none;
    assert Prefix(d, 0).vals == map[];
  }

  lemma PrefixShaped(d: Dict, n: nat)
    requires RoundTrippable(d) && n <= |d.keys|
    ensures Shaped(Prefix(d, n))
  {
  }

  /** Adding the pairs of the first `n` keys builds the first `n` entries. */
  predicate BuiltUpTo(d: Dict, n: nat)
    requires n <= |d.keys|
  {
    AddAll(EmptyDict, AllPairs(d, n)) == Prefix(d, n)
  }

  /** Adding the pairs of one more key puts that key and its value. */
  lemma BuildStep(d: Dict, n: nat)
    requires RoundTrippable(d) && 0 < n <= |d.keys|
    requires BuiltUpTo(d, n - 1)
    ensures BuiltUpTo(d, n)
  {
    PrefixShaped(d, n - 1);
    PrefixStep(d, n);
    var k := d.keys[n - 1];
    var v := d.vals[k];
    var vs := Strings(v);
    var before := AllPairs(d, n - 1);
    assert AllPairs(d, n) == before + KeyPairs(k, vs);
    StringsOf(v);
    AddAllConcat(EmptyDict, before, KeyPairs(k, vs));
    AddAllFresh(Prefix(d, n - 1), k, vs);
  }

  /** No keys, no pairs: adding nothing builds the empty prefix. */
  lemma BuildEmpty(d: Dict)
    ensures BuiltUpTo(d, 0)
  {
    assert AllPairs(d, 0) == [];
    PrefixEmpty(d);
  }

  /** Adding the pairs of the first `n` keys, one key at a time. */
  lemma AllPairsBuild(d: Dict, n: nat)
    requires RoundTrippable(d) && n <= |d.keys|
    ensures BuiltUpTo(d, n)
  {
    BuildEmpty(d);
    var m := 0;
    while m < n
      invariant m <= n && BuiltUpTo(d, m)
    {
      BuildStep(d, m + 1);
      m := m + 1;
    }
  }

  lemma PrefixWhole(d: Dict)
    requires WellFormed(d)
    ensures Prefix(d, |d.keys|) == d
  {
    assert d.keys[..|d.keys|] == d.keys;
  }

  // ---------------------------------------------------------------------
  // The round trip
  // ---------------------------------------------------------------------

  /** stringify renders every object the round trip holds for. */
  lemma RoundTrippableRenderable(d: Dict)
    requires RoundTrippable(d)
    ensures Renderable(d)
  {
    forall k | k in d.vals ensures EntryRenderable(k, d.vals[k]) {
      assert Reparsable(d.vals[k]);
    }
  }

  /** The empty object stringifies to the empty query, with either
      encoder, and that parses to the empty object. */
  lemma ParseStringifyEmpty(d: Dict, sep: byte, eq: byte)
    requires WellFormed(d) && d.keys == []
    ensures Renderable(d) && StringifySpec(d, sep, eq) == [] && StringifyFixed(d, sep, eq) == []
    ensures ParseDecodable([], sep, eq) && ParseSpec([], sep, eq) == d
  {
    assert d.vals == map[];
    assert Split([], sep, eq) == [[]];
    assert SegmentPair([], eq) == ([], []);
  }

  /** The corrected stringify and parse are inverse on these objects:
      parse decodes what it writes, and the result is the object again. */
  lemma ParseStringifyFixed(d: Dict, sep: byte, eq: byte)
    requires RoundTrippable(d) && sep != eq && Delimiter(sep) && Delimiter(eq)
    ensures ParseDecodable(StringifyFixed(d, sep, eq), sep, eq)
    ensures ParseSpec(StringifyFixed(d, sep, eq), sep, eq) == d
  {
    var n := |d.keys|;
    if n == 0 {
      ParseStringifyEmpty(d, sep, eq);
    } else {
      assert d.keys[..n] == d.keys;
      EntriesJoin(d, n, sep, eq);
      AllPairsBuild(d, n);
      PrefixWhole(d);
      AllPairsFit(d, n);
      ParsePairs(AllPairs(d, n), sep, eq);
    }
  }

  /** stringify as written and parse are inverse on these objects as long
      as the encoder's budget cuts no key and no string short (which holds,
      for one, when they are made of unreserved bytes). */
  lemma ParseStringify(d: Dict, sep: byte, eq: byte)
    requires RoundTrippable(d) && DictEncodesFully(d) && sep != eq && Delimiter(sep) && Delimiter(eq)
    ensures Renderable(d)
    ensures ParseDecodable(StringifySpec(d, sep, eq), sep, eq)
    ensures ParseSpec(StringifySpec(d, sep, eq), sep, eq) == d
  {
    StringifyAgrees(d, sep, eq);
    ParseStringifyFixed(d, sep, eq);
  }

  const AMP: byte := 0x26
  const EQ: byte := 0x3D

  /** The object {"k": "  "}. */
  const TwoSpaces: Dict := Dict([[0x6B]], map[[0x6B] := Str([SPACE, SPACE])])

  /** The query "k=%20%". */
  const TwoSpacesQuery: Bytes := [0x6B, EQ, PERCENT, 0x32, 0x30, PERCENT]

  /** stringify, as written, of {"k": "  "} is "k=%20%": the second
      space's escape is cut after its '%'. */
  lemma StringifyTwoSpaces()
    ensures Renderable(TwoSpaces) && StringifySpec(TwoSpaces, AMP, EQ) == TwoSpacesQuery
  {
    var d, k, v := TwoSpaces, [0x6B], Str([SPACE, SPACE]);
    assert k in d.vals && d.vals[k] == v;
    assert Renderable(d);
    PercentEncodeUnreserved(k);
    PercentEncodeTruncatesTwoEscapes();
    assert PairText(k, v, EQ) == TwoSpacesQuery;
    assert EntryText(k, v, AMP, EQ) == TwoSpacesQuery;
    assert d.keys[..0] == [];
    assert EntryTexts(d, d.keys, AMP, EQ) == [TwoSpacesQuery];
  }

  /** percentDecode of "%20%": the escape gives a space, the lone '%' nothing. */
  lemma DecodeCutEscape()
    ensures Decodable([PERCENT, 0x32, 0x30, PERCENT])
    ensures PercentDecodeString([PERCENT, 0x32, 0x30, PERCENT]) == [SPACE]
  {
    var tail: Bytes := [PERCENT, 0x32, 0x30, PERCENT];
    DecodeLoopTrailingPercent(3, []);
    assert [] + [PERCENT] == [PERCENT];
    DecodeLoopEscape(4, 0x32, 0x30, [PERCENT]);
    assert [PERCENT, 0x32, 0x30] + [PERCENT] == tail;
  }

  /** percentDecode of "k" is "k". */
  lemma DecodeKey()
    ensures Decodable([0x6B]) && PercentDecodeString([0x6B]) == [0x6B]
  {
    DecodeLoopPlain(1, [0x6B]);
    assert PlusToSpace([0x6B]) == [0x6B];
  }

  /** parse of "k=%20%" decodes the cut escape to nothing: {"k": " "}. */
  lemma ParseTwoSpacesQuery()
    ensures ParseDecodable(TwoSpacesQuery, AMP, EQ)
    ensures ParseSpec(TwoSpacesQuery, AMP, EQ) == Dict([[0x6B]], map[[0x6B] := Str([SPACE])])
  {
    var k: Bytes := [0x6B];
    var tail: Bytes := [PERCENT, 0x32, 0x30, PERCENT];
    var q := k + [EQ] + tail;
    assert q == TwoSpacesQuery;
    DecodeKey();
    DecodeCutEscape();
    SegmentAtLastEq(k, EQ, tail);
    assert DecodedPair(q, EQ) == (k, [SPACE]);
    assert NoSep(q, AMP, EQ);
    ParseOneSegment(q, AMP, EQ);
  }

  /** Where the round trip breaks with the encoder as written: {"k": "  "}
      stringifies to a query that does not parse back to it. */
  lemma StringifyTwoSpacesLosesOne()
    ensures Renderable(TwoSpaces) && ParseDecodable(StringifySpec(TwoSpaces, AMP, EQ), AMP, EQ)
    ensures ParseSpec(StringifySpec(TwoSpaces, AMP, EQ), AMP, EQ) != TwoSpaces
  {
    StringifyTwoSpaces();
    ParseTwoSpacesQuery();
    var k: Bytes := [0x6B];
    assert Dict([k], map[k := Str([SPACE])]).vals[k] != TwoSpaces.vals[k];
  }
}
