/** The query-string handling of `clean_url`: `urllib.parse.parse_qs`, which reads the query into a
    dictionary from each key to the list of its values, and `urllib.parse.urlencode(..., doseq=True)`,
    which writes such a dictionary back. A Python dictionary keeps its keys in insertion order, so it
    is modelled as a sequence of entries with distinct keys. Percent-decoding and percent-encoding are
    not modelled: keys and values are the text as it stands between the separators. */
module Query {
  import opened Options
  import opened Text

  type Pair = (string, string)

  /** A `dict` from key to list of values, in insertion order. */
  type Dict = seq<(string, seq<string>)>

  /** The keys of a dictionary's entries, or of a sequence of pairs, in order. */
  function Keys<V>(d: seq<(string, V)>): (r: seq<string>)
    ensures |r| == |d| && forall i :: 0 <= i < |d| ==> r[i] == d[i].0
  {
    seq(|d|, i requires 0 <= i < |d| => d[i].0)
  }

  /** What `parse_qsl` (blank values not kept, parsing not strict) makes of one `&`-separated
      field: a field without `=` or with an empty value is dropped, otherwise the field is cut at
      its first `=`. */
  function FieldPair(field: string): (r: Option<Pair>)
    ensures r.Some? <==> '=' in field && SplitOnce(field, '=').1 != []
    ensures r.Some? ==> r.value.0 + "=" + r.value.1 == field && '=' !in r.value.0
  {
    if field == [] then None
    else if '=' !in field then None
    else
      var (name, value) := SplitOnce(field, '=');
      if value == [] then None else Some((name, value))
  }

  /** The pairs one field contributes to `parse_qsl`: none, or its pair. */
  function FieldPairs(field: string): (r: seq<Pair>)
    ensures |r| <= 1
  {
    match FieldPair(field) case Some(kv) => [kv] case None => []
  }

  function FieldsToPairs(fields: seq<string>): seq<Pair>
  {
    if fields == [] then [] else FieldPairs(fields[0]) + FieldsToPairs(fields[1..])
  }

  /** `urllib.parse.parse_qsl(qs)`: the (key, value) pairs of the query, in order. */
  function ParseQsl(qs: string): seq<Pair> {
    FieldsToPairs(Split(qs, '&'))
  }

  /** The index of the entry for `k`, or -1 when `k` is not a key. */
  function KeyIndex(d: Dict, k: string): (r: int)
    ensures r == -1 <==> k !in Keys(d)
    ensures r != -1 ==> 0 <= r < |d| && d[r].0 == k && forall j :: 0 <= j < r ==> d[j].0 != k
  {
    if d == [] then -1
    else if d[0].0 == k then 0
    else
      var r := KeyIndex(d[1..], k);
      assert Keys(d[1..]) == Keys(d)[1..];
      if r == -1 then -1 else r + 1
  }

  /** One step of `parse_qs`: the value goes to the end of its key's list, and a new key goes to
      the end of the dictionary. */
  function Insert(d: Dict, p: Pair): Dict {
    var i := KeyIndex(d, p.0);
    if i == -1 then d + [(p.0, [p.1])] else d[i := (p.0, d[i].1 + [p.1])]
  }

  /** The dictionary `parse_qs` builds from the pairs of `parse_qsl`. */
  function Group(ps: seq<Pair>): Dict
  {
    if ps == [] then [] else Insert(Group(ps[..|ps| - 1]), ps[|ps| - 1])
  }

  /** `urllib.parse.parse_qs(qs)`. */
  function ParseQs(qs: string): Dict {
    Group(ParseQsl(qs))
  }

  /** The pairs `urlencode` writes for one key, one per value. */
  function KeyPairs(k: string, vs: seq<string>): (r: seq<Pair>)
    ensures |r| == |vs| && forall i :: 0 <= i < |vs| ==> r[i] == (k, vs[i])
  {
    seq(|vs|, i requires 0 <= i < |vs| => (k, vs[i]))
  }

  /** Every (key, value) pair of the dictionary, key by key, in order. */
  function Pairs(d: Dict): seq<Pair>
  {
    if d == [] then [] else Pairs(d[..|d| - 1]) + KeyPairs(d[|d| - 1].0, d[|d| - 1].1)
  }

  function Field(p: Pair): string {
    p.0 + "=" + p.1
  }

  function Fields(ps: seq<Pair>): (r: seq<string>)
    ensures |r| == |ps| && forall i :: 0 <= i < |ps| ==> r[i] == Field(ps[i])
  {
    seq(|ps|, i requires 0 <= i < |ps| => Field(ps[i]))
  }

  /** `urllib.parse.urlencode(d, doseq=True)`. */
  function Urlencode(d: Dict): string {
    Join(Fields(Pairs(d)), '&')
  }

  /** The dictionary without the entries whose key is in `blocked`, in the same order. */
  function Without(d: Dict, blocked: seq<string>): Dict
  {
    if d == [] then []
    else (if d[0].0 in blocked then [] else [d[0]]) + Without(d[1..], blocked)
  }

  predicate ValidKey(k: string) {
    '&' !in k && '=' !in k
  }

  predicate ValidValue(v: string) {
    v != [] && '&' !in v
  }

  predicate ValidPair(p: Pair) {
    ValidKey(p.0) && ValidValue(p.1)
  }

  /** What every dictionary `parse_qs` returns satisfies: distinct keys, each with at least one
      value, and no separator inside a key or a value. */
  predicate WellFormed(d: Dict) {
    && (forall i, j :: 0 <= i < j < |d| ==> d[i].0 != d[j].0)
    && (forall i :: 0 <= i < |d| ==> ValidKey(d[i].0) && d[i].1 != [])
    && (forall i, j :: 0 <= i < |d| && 0 <= j < |d[i].1| ==> ValidValue(d[i].1[j]))
  }

  /** Every pair `parse_qsl` produces has a key without `&` or `=` and a non-empty value without `&`. */
  lemma {:induction false} FieldsToPairsValid(fields: seq<string>)
    requires forall k :: 0 <= k < |fields| ==> '&' !in fields[k]
    ensures forall i :: 0 <= i < |FieldsToPairs(fields)| ==> ValidPair(FieldsToPairs(fields)[i])
  {
    if fields != [] {
      FieldsToPairsValid(fields[1..]);
      var f := fields[0];
      if FieldPair(f).Some? {
        var p := FieldPair(f).value;
        assert f == p.0 + "=" + p.1;
        assert forall c :: c in p.0 ==> c in f;
        assert forall c :: c in p.1 ==> c in f;
      }
    }
  }

  lemma ParseQslValid(qs: string)
    ensures forall i :: 0 <= i < |ParseQsl(qs)| ==> ValidPair(ParseQsl(qs)[i])
  {
    FieldsToPairsValid(Split(qs, '&'));
  }

  lemma InsertWellFormed(d: Dict, p: Pair)
    requires WellFormed(d) && ValidPair(p)
    ensures WellFormed(Insert(d, p))
    ensures Keys(Insert(d, p)) == if p.0 in Keys(d) then Keys(d) else Keys(d) + [p.0]
  {
    var r := Insert(d, p);
    var i := KeyIndex(d, p.0);
    if i == -1 {
      assert r == d + [(p.0, [p.1])];
      assert Keys(r) == Keys(d) + [p.0];
    } else {
      assert Keys(r) == Keys(d);
      forall a, b | 0 <= a < |r| && 0 <= b < |r[a].1|
        ensures ValidValue(r[a].1[b])
      {
        if a == i && b == |d[i].1| {
          assert r[a].1[b] == p.1;
        } else {
          assert r[a].1[b] == d[a].1[b];
        }
      }
    }
  }

  /** `parse_qs` yields a well-formed dictionary whose keys are exactly the keys of the pairs. */
  lemma {:induction false} GroupWellFormed(ps: seq<Pair>)
    requires forall i :: 0 <= i < |ps| ==> ValidPair(ps[i])
    ensures WellFormed(Group(ps))
    ensures forall k :: k in Keys(Group(ps)) <==> k in Keys(ps)
  {
    if ps != [] {
      var init := ps[..|ps| - 1];
      var last := ps[|ps| - 1];
      GroupWellFormed(init);
      InsertWellFormed(Group(init), last);
      assert Group(ps) == Insert(Group(init), last);
      assert Keys(ps) == Keys(init) + [last.0];
    }
  }

  lemma ParseQsWellFormed(qs: string)
    ensures WellFormed(ParseQs(qs))
    ensures forall k :: k in Keys(ParseQs(qs)) <==> k in Keys(ParseQsl(qs))
  {
    ParseQslValid(qs);
    GroupWellFormed(ParseQsl(qs));
  }

  lemma GroupSnoc(ps: seq<Pair>, p: Pair)
    ensures Group(ps + [p]) == Insert(Group(ps), p)
  {
    assert (ps + [p])[..|ps|] == ps;
  }

  lemma InsertNewKey(d: Dict, k: string, v: string)
    requires k !in Keys(d)
    ensures Insert(d, (k, v)) == d + [(k, [v])]
  {
  }

  lemma InsertLastKey(d: Dict, k: string, vs: seq<string>, v: string)
    requires k !in Keys(d)
    ensures Insert(d + [(k, vs)], (k, v)) == d + [(k, vs + [v])]
  {
    var g := d + [(k, vs)];
    assert Keys(g) == Keys(d) + [k];
    var i := KeyIndex(g, k);
    assert i == |d|;
  }

  /** Grouping one more pair of the last key appends its value to that key's list. */
  lemma GroupStep(ps: seq<Pair>, d: Dict, k: string, front: seq<string>, v: string)
    requires Group(ps + KeyPairs(k, front)) == d + [(k, front)] && k !in Keys(d)
    ensures Group(ps + KeyPairs(k, front + [v])) == d + [(k, front + [v])]
  {
    var xs := ps + KeyPairs(k, front);
    assert KeyPairs(k, front + [v]) == KeyPairs(k, front) + [(k, v)];
    assert ps + KeyPairs(k, front + [v]) == xs + [(k, v)];
    GroupSnoc(xs, (k, v));
    InsertLastKey(d, k, front, v);
  }

  /** Grouping the pairs of one more key, new to the dictionary, adds that key with its values. */
  lemma {:induction false} GroupKeyPairs(ps: seq<Pair>, d: Dict, k: string, vs: seq<string>)
    requires Group(ps) == d && k !in Keys(d) && vs != []
    ensures Group(ps + KeyPairs(k, vs)) == d + [(k, vs)]
    decreases |vs|
  {
    var n := |vs|;
    if n == 1 {
      var last := (k, vs[0]);
      assert ps + KeyPairs(k, vs) == ps + [last];
      GroupSnoc(ps, last);
      InsertNewKey(d, k, vs[0]);
      assert [vs[0]] == vs;
    } else {
      var front := vs[..n - 1];
      GroupKeyPairs(ps, d, k, front);
      GroupStep(ps, d, k, front, vs[n - 1]);
      assert front + [vs[n - 1]] == vs;
    }
  }

  /** Grouping the pairs a well-formed dictionary writes out gives the dictionary back. */
  lemma {:induction false} GroupPairs(d: Dict)
    requires WellFormed(d)
    ensures Group(Pairs(d)) == d
  {
    if d != [] {
      var init := d[..|d| - 1];
      var (k, vs) := d[|d| - 1];
      WellFormedInit(d);
      GroupPairs(init);
      assert Pairs(d) == Pairs(init) + KeyPairs(k, vs);
      GroupKeyPairs(Pairs(init), init, k, vs);
      assert init + [(k, vs)] == d;
    }
  }

  /** Dropping the last entry of a well-formed dictionary leaves a well-formed dictionary
      without its key. */
  lemma WellFormedInit(d: Dict)
    requires WellFormed(d) && d != []
    ensures WellFormed(d[..|d| - 1]) && d[|d| - 1].0 !in Keys(d[..|d| - 1]) && d[|d| - 1].1 != []
  {
    var init := d[..|d| - 1];
    forall i | 0 <= i < |init| ensures Keys(init)[i] != d[|d| - 1].0 {
      assert init[i] == d[i];
    }
  }

  lemma {:induction false} FieldsToPairsOfFields(ps: seq<Pair>)
    requires forall i :: 0 <= i < |ps| ==> ValidPair(ps[i])
    ensures FieldsToPairs(Fields(ps)) == ps
  {
    if ps != [] {
      FieldsToPairsOfFields(ps[1..]);
      assert Fields(ps)[1..] == Fields(ps[1..]);
      SplitOnceOf(ps[0].0, '=', ps[0].1);
      assert Field(ps[0]) == ps[0].0 + ['='] + ps[0].1;
      assert [ps[0]] + ps[1..] == ps;
    }
  }

  lemma {:induction false} PairsValid(d: Dict)
    requires WellFormed(d)
    ensures forall i :: 0 <= i < |Pairs(d)| ==> ValidPair(Pairs(d)[i])
    ensures Pairs(d) == [] <==> d == []
  {
    if d != [] {
      var init := d[..|d| - 1];
      PairsValid(init);
      var last := d[|d| - 1];
      assert |KeyPairs(last.0, last.1)| > 0;
      forall i | 0 <= i < |Pairs(d)|
        ensures ValidPair(Pairs(d)[i])
      {
        if i >= |Pairs(init)| {
          assert Pairs(d)[i] == (last.0, last.1[i - |Pairs(init)|]);
        } else {
          assert Pairs(d)[i] == Pairs(init)[i];
        }
      }
    }
  }

  /** Reading back what `urlencode` wrote gives the same dictionary. */
  lemma EncodeRoundTrip(d: Dict)
    requires WellFormed(d)
    ensures ParseQs(Urlencode(d)) == d
  {
    PairsValid(d);
    var ps := Pairs(d);
    if ps == [] {
      assert Urlencode(d) == [];
      assert Split([], '&') == [[]];
      assert FieldsToPairs([[]]) == [];
    } else {
      forall i | 0 <= i < |Fields(ps)|
        ensures '&' !in Fields(ps)[i]
      {
        assert Fields(ps)[i] == ps[i].0 + "=" + ps[i].1;
      }
      SplitJoin(Fields(ps), '&');
      FieldsToPairsOfFields(ps);
    }
    GroupPairs(d);
  }

  /** The entries kept are exactly the entries whose key is not blocked. */
  lemma {:induction false} WithoutEntries(d: Dict, blocked: seq<string>)
    ensures forall e :: e in Without(d, blocked) <==> e in d && e.0 !in blocked
  {
    if d != [] {
      WithoutEntries(d[1..], blocked);
      assert d == [d[0]] + d[1..];
    }
  }

  lemma {:induction false} WithoutKeys(d: Dict, blocked: seq<string>)
    ensures forall k :: k in Keys(Without(d, blocked)) <==> k in Keys(d) && k !in blocked
  {
    if d != [] {
      WithoutKeys(d[1..], blocked);
      var rest := Without(d[1..], blocked);
      assert Keys(d) == [d[0].0] + Keys(d[1..]);
      if d[0].0 !in blocked {
        assert Keys(Without(d, blocked)) == [d[0].0] + Keys(rest);
      } else {
        assert Without(d, blocked) == rest;
      }
    }
  }

  lemma {:induction false} WithoutWellFormed(d: Dict, blocked: seq<string>)
    requires WellFormed(d)
    ensures WellFormed(Without(d, blocked))
  {
    if d != [] {
      WithoutWellFormed(d[1..], blocked);
      if d[0].0 !in blocked {
        var rest := Without(d[1..], blocked);
        WithoutKeys(d[1..], blocked);
        assert d[0].0 !in Keys(d[1..]);
        assert d[0].0 !in Keys(rest);
        var r := [d[0]] + rest;
        assert Without(d, blocked) == r;
        forall i, j | 0 <= i < j < |r|
          ensures r[i].0 != r[j].0
        {
          if i == 0 {
            assert r[j].0 == Keys(rest)[j - 1];
          } else {
            assert r[i] == rest[i - 1] && r[j] == rest[j - 1];
          }
        }
      }
    }
  }

  /** Removing the same keys a second time changes nothing. */
  lemma {:induction false} WithoutTwice(d: Dict, blocked: seq<string>)
    ensures Without(Without(d, blocked), blocked) == Without(d, blocked)
  {
    if d != [] {
      WithoutTwice(d[1..], blocked);
      if d[0].0 !in blocked {
        var rest := Without(d[1..], blocked);
        var r := Without(d, blocked);
        assert r == [d[0]] + rest;
        assert r != [] && r[0] == d[0] && r[1..] == rest;
        assert Without(r, blocked) == [d[0]] + Without(rest, blocked);
      } else {
        assert Without(d, blocked) == Without(d[1..], blocked);
      }
    }
  }

  /** No key and no value of the dictionary holds the character `c`. */
  predicate DictLacks(d: Dict, c: char) {
    && (forall i :: 0 <= i < |d| ==> c !in d[i].0)
    && (forall i, j :: 0 <= i < |d| && 0 <= j < |d[i].1| ==> c !in d[i].1[j])
  }

  predicate PairsLack(ps: seq<Pair>, c: char) {
    forall i :: 0 <= i < |ps| ==> c !in ps[i].0 && c !in ps[i].1
  }

  lemma {:induction false} FieldsToPairsLack(fields: seq<string>, c: char)
    requires forall k :: 0 <= k < |fields| ==> c !in fields[k]
    ensures PairsLack(FieldsToPairs(fields), c)
  {
    if fields != [] {
      FieldsToPairsLack(fields[1..], c);
      var f := fields[0];
      if FieldPair(f).Some? {
        var p := FieldPair(f).value;
        assert f == p.0 + "=" + p.1;
        assert forall x :: x in p.0 ==> x in f;
        assert forall x :: x in p.1 ==> x in f;
      }
    }
  }

  lemma {:induction false} GroupLacks(ps: seq<Pair>, c: char)
    requires PairsLack(ps, c)
    ensures DictLacks(Group(ps), c)
  {
    if ps != [] {
      var init := ps[..|ps| - 1];
      GroupLacks(init, c);
      var d := Group(init);
      var p := ps[|ps| - 1];
      var r := Insert(d, p);
      var i := KeyIndex(d, p.0);
      if i != -1 {
        forall a, b | 0 <= a < |r| && 0 <= b < |r[a].1|
          ensures c !in r[a].1[b]
        {
          if a == i && b == |d[i].1| {
            assert r[a].1[b] == p.1;
          } else {
            assert r[a].1[b] == d[a].1[b];
          }
        }
      }
    }
  }

  /** A character that is not in the query string is in no key and no value `parse_qs` reads. */
  lemma ParseQsLacks(qs: string, c: char)
    requires c !in qs
    ensures DictLacks(ParseQs(qs), c)
  {
    SplitLacks(qs, '&', c);
    FieldsToPairsLack(Split(qs, '&'), c);
    GroupLacks(ParseQsl(qs), c);
  }

  lemma WithoutLacks(d: Dict, blocked: seq<string>, c: char)
    requires DictLacks(d, c)
    ensures DictLacks(Without(d, blocked), c)
  {
    WithoutEntries(d, blocked);
    var r := Without(d, blocked);
    forall i | 0 <= i < |r|
      ensures c !in r[i].0 && forall j :: 0 <= j < |r[i].1| ==> c !in r[i].1[j]
    {
      assert r[i] in d;
      var k :| 0 <= k < |d| && d[k] == r[i];
    }
  }

  lemma {:induction false} PairsLackOf(d: Dict, c: char)
    requires DictLacks(d, c)
    ensures PairsLack(Pairs(d), c)
  {
    if d != [] {
      var init := d[..|d| - 1];
      PairsLackOf(init, c);
      var last := d[|d| - 1];
      forall i | 0 <= i < |Pairs(d)|
        ensures c !in Pairs(d)[i].0 && c !in Pairs(d)[i].1
      {
        if i >= |Pairs(init)| {
          assert Pairs(d)[i] == (last.0, last.1[i - |Pairs(init)|]);
        } else {
          assert Pairs(d)[i] == Pairs(init)[i];
        }
      }
    }
  }

  /** `urlencode` adds no character but the separators `&` and `=`. */
  lemma UrlencodeLacks(d: Dict, c: char)
    requires c != '&' && c != '=' && DictLacks(d, c)
    ensures c !in Urlencode(d)
  {
    PairsLackOf(d, c);
    var ps := Pairs(d);
    forall i | 0 <= i < |Fields(ps)|
      ensures c !in Fields(ps)[i]
    {
      assert Fields(ps)[i] == ps[i].0 + "=" + ps[i].1;
    }
    JoinLacks(Fields(ps), '&', c);
  }

  /** Each of `ps` with every occurrence of `p` replaced in its key and in its value. */
  function ReplacePairs(ps: seq<Pair>, p: string, r: string): (rs: seq<Pair>)
    requires p != []
    ensures |rs| == |ps|
    ensures forall i :: 0 <= i < |ps| ==> rs[i] == (ReplaceAll(ps[i].0, p, r), ReplaceAll(ps[i].1, p, r))
  {
    seq(|ps|, i requires 0 <= i < |ps| => (ReplaceAll(ps[i].0, p, r), ReplaceAll(ps[i].1, p, r)))
  }

  /** A field with `p` replaced by a non-empty `r`, neither holding `=`, is kept exactly when the
      field was, and gives the field's pair replaced the same way. */
  lemma FieldPairReplace(field: string, p: string, r: string)
    requires p != [] && r != [] && '=' !in p && '=' !in r
    ensures FieldPair(ReplaceAll(field, p, r))
      == match FieldPair(field)
         case None => None
         case Some(kv) => Some((ReplaceAll(kv.0, p, r), ReplaceAll(kv.1, p, r)))
  {
    SplitOnceReplace(field, '=', p, r);
    if '=' in field {
      ReplaceEmpty(SplitOnce(field, '=').1, p, r);
    }
  }

  lemma FieldPairsReplace(field: string, p: string, r: string)
    requires p != [] && r != [] && '=' !in p && '=' !in r
    ensures FieldPairs(ReplaceAll(field, p, r)) == ReplacePairs(FieldPairs(field), p, r)
  {
    FieldPairReplace(field, p, r);
  }

  lemma ReplacePairsConcat(a: seq<Pair>, b: seq<Pair>, p: string, r: string)
    requires p != []
    ensures ReplacePairs(a + b, p, r) == ReplacePairs(a, p, r) + ReplacePairs(b, p, r)
  {
  }

  lemma {:induction false} FieldsToPairsReplace(fields: seq<string>, p: string, r: string)
    requires p != [] && r != [] && '=' !in p && '=' !in r
    ensures FieldsToPairs(ReplaceEach(fields, p, r)) == ReplacePairs(FieldsToPairs(fields), p, r)
  {
    if fields != [] {
      var replaced := ReplaceEach(fields, p, r);
      assert replaced[1..] == ReplaceEach(fields[1..], p, r);
      FieldsToPairsReplace(fields[1..], p, r);
      FieldPairsReplace(fields[0], p, r);
      ReplacePairsConcat(FieldPairs(fields[0]), FieldsToPairs(fields[1..]), p, r);
    }
  }

  /** Replacing `p` by a non-empty `r` in a query string, when neither holds `&` or `=`, replaces
      it in every key and every value `parse_qsl` reads, and changes nothing else: the same
      fields are kept, in the same order. */
  lemma ParseQslReplace(qs: string, p: string, r: string)
    requires p != [] && r != [] && '&' !in p && '&' !in r && '=' !in p && '=' !in r
    ensures ParseQsl(ReplaceAll(qs, p, r)) == ReplacePairs(ParseQsl(qs), p, r)
  {
    SplitReplace(qs, '&', p, r);
    FieldsToPairsReplace(Split(qs, '&'), p, r);
  }
}
