/** GET / in index.js: every row, or only those whose activation key matches
    `ILIKE '%' || term || '%'`, newest first. */
module Search {
  import opened Optional
  import opened Text
  import opened Keys

  /** `req.query.search || ''`. */
  function SearchTerm(search: Option<string>): (term: string)
    ensures search.None? ==> term == ""
  {
    if search.None? then "" else search.value
  }

  /** PostgreSQL LIKE with the default escape character `\`: `%` matches any
      run of characters, `_` exactly one, `\x` the character x itself. A
      pattern without any of the three matches only itself. */
  predicate Like(p: string, s: string): (b: bool)
    ensures IsPlain(p) ==> (b <==> s == p)
    decreases |p| + |s|
  {
    if p == [] then s == []
    else if p[0] == '%' then Like(p[1..], s) || (s != [] && Like(p, s[1..]))
    else if p[0] == '_' then s != [] && Like(p[1..], s[1..])
    else if p[0] == '\\' && |p| >= 2 then s != [] && s[0] == p[1] && Like(p[2..], s[1..])
    else s != [] && s[0] == p[0] && Like(p[1..], s[1..])
  }

  /** `activation_key ILIKE $1` with `$1 = %term%`, folding ASCII case. */
  predicate Matches(term: string, k: KeyRecord): (b: bool)
    ensures term == "" ==> b
  {
    if term == "" then
      assert Lower("%" + term + "%") == "%%";
      PercentMatchesAll(Lower(k.activationKey));
      Like(Lower("%" + term + "%"), Lower(k.activationKey))
    else
      Like(Lower("%" + term + "%"), Lower(k.activationKey))
  }

  /** The WHERE clause is added only for a non-empty term; leaving it out for
      the empty term changes nothing, since `%%` matches every key. */
  predicate Selected(term: string, k: KeyRecord): (b: bool)
    ensures b == Matches(term, k)
  {
    term == "" || Matches(term, k)
  }

  /** A term without the wildcard and escape characters of LIKE. */
  predicate IsPlain(term: string) {
    forall i :: 0 <= i < |term| ==> term[i] != '%' && term[i] != '_' && term[i] != '\\'
  }

  lemma {:induction false} PercentMatchesAll(s: string)
    ensures Like("%", s)
  {
    if s != [] {
      PercentMatchesAll(s[1..]);
    }
  }

  /** A leading `%` lets the rest of the pattern match any suffix. */
  lemma {:induction false} LeadingPercent(q: string, s: string)
    ensures Like(['%'] + q, s) <==> exists k :: 0 <= k <= |s| && Like(q, s[k..])
  {
    var p := ['%'] + q;
    assert p[0] == '%' && p[1..] == q;
    assert s[0..] == s;
    if s != [] {
      LeadingPercent(q, s[1..]);
      assert Like(p, s) == (Like(q, s) || Like(p, s[1..]));
      if Like(p, s) {
        if Like(q, s) {
          assert Like(q, s[0..]);
        } else {
          var k :| 0 <= k <= |s[1..]| && Like(q, s[1..][k..]);
          assert s[1..][k..] == s[k + 1..];
          assert Like(q, s[k + 1..]);
        }
      }
      if exists k :: 0 <= k <= |s| && Like(q, s[k..]) {
        var k :| 0 <= k <= |s| && Like(q, s[k..]);
        if k > 0 {
          assert s[1..][k - 1..] == s[k..];
          assert Like(q, s[1..][k - 1..]);
        }
      }
    } else {
      assert Like(p, s) == Like(q, s);
      if exists k :: 0 <= k <= |s| && Like(q, s[k..]) {
        var k :| 0 <= k <= |s| && Like(q, s[k..]);
        assert k == 0;
      }
    }
  }

  /** A plain prefix of the pattern must match the text character by character. */
  lemma {:induction false} PlainPrefix(t: string, q: string, s: string)
    requires IsPlain(t)
    ensures Like(t + q, s) <==> |t| <= |s| && s[..|t|] == t && Like(q, s[|t|..])
  {
    if t != [] {
      var p := t + q;
      assert p[0] == t[0] && p[1..] == t[1..] + q;
      assert IsPlain(t[1..]) by {
        forall i | 0 <= i < |t[1..]| ensures t[1..][i] != '%' && t[1..][i] != '_' && t[1..][i] != '\\' {
          assert t[1..][i] == t[i + 1];
        }
      }
      if s != [] {
        PlainPrefix(t[1..], q, s[1..]);
        if |t| <= |s| {
          assert s[1..][|t| - 1..] == s[|t|..];
          assert s[..|t|] == [s[0]] + s[1..][..|t| - 1];
          assert t == [t[0]] + t[1..];
        }
      }
    } else {
      assert t + q == q && s[..0] == t && s[0..] == s;
    }
  }

  lemma LowerIsPlain(term: string)
    requires IsPlain(term)
    ensures IsPlain(Lower(term))
  {
  }

  lemma LowerAppend(a: string, b: string)
    ensures Lower(a + b) == Lower(a) + Lower(b)
  {
  }

  /** For a term without wildcard characters the search is exactly a
      case-insensitive substring search. */
  lemma PlainTermIsSubstring(term: string, k: KeyRecord)
    requires IsPlain(term)
    ensures Matches(term, k) <==> ContainsIgnoreCase(k.activationKey, term)
  {
    var t := Lower(term);
    var s := Lower(k.activationKey);
    LowerIsPlain(term);
    LowerAppend("%" + term, "%");
    LowerAppend("%", term);
    assert Lower("%") == "%";
    assert Lower("%" + term + "%") == ['%'] + (t + "%");
    LeadingPercent(t + "%", s);
    if Matches(term, k) {
      var j :| 0 <= j <= |s| && Like(t + "%", s[j..]);
      PlainPrefix(t, "%", s[j..]);
      assert s[j..][..|t|] == s[j..j + |t|];
      assert OccursAt(s, t, j);
    }
    if ContainsIgnoreCase(k.activationKey, term) {
      var j :| 0 <= j <= |s| && OccursAt(s, t, j);
      assert s[j..][..|t|] == s[j..j + |t|];
      PercentMatchesAll(s[j..][|t|..]);
      PlainPrefix(t, "%", s[j..]);
    }
  }

  /** `_` is a wildcard: searching for "_" lists every non-empty key, although
      no uuid contains an underscore. */
  lemma UnderscoreMatchesEveryKey(k: KeyRecord)
    requires k.activationKey != ""
    ensures Matches("_", k)
  {
    var s := Lower(k.activationKey);
    assert "%" + "_" + "%" == ['%'] + "_%";
    assert Lower(['%'] + "_%") == ['%'] + "_%";
    assert "_%"[1..] == "%";
    PercentMatchesAll(s[1..]);
    assert s[0..] == s;
    assert Like("_%", s[0..]);
    LeadingPercent("_%", s);
  }

  // ----- ORDER BY created_at DESC -----

  datatype ListedRow = ListedRow(id: nat, key: KeyRecord)

  /** Row `a` is listed before row `b`: newer first; rows created at the same
      time (which SQL leaves unordered) by descending id. */
  predicate ListedBefore(m: Table, a: nat, b: nat)
    requires a in m && b in m
  {
    m[a].createdAt > m[b].createdAt || (m[a].createdAt == m[b].createdAt && a > b)
  }

  predicate IsNewest(id: nat, m: Table) {
    id in m && forall j :: j in m && j != id ==> ListedBefore(m, id, j)
  }

  lemma {:induction false} NewestExists(m: Table)
    requires m != map[]
    ensures exists id :: IsNewest(id, m)
  {
    var y :| y in m;
    if m.Keys == {y} {
      assert IsNewest(y, m);
    } else {
      var rest := m - {y};
      assert rest != map[] by {
        var z :| z in m.Keys && z != y;
        assert z in rest;
      }
      NewestExists(rest);
      var n :| IsNewest(n, rest);
      var best := if ListedBefore(m, y, n) then y else n;
      forall j | j in m && j != best
        ensures ListedBefore(m, best, j)
      {
        if j != y && j != n {
          assert j in rest && ListedBefore(rest, n, j);
        }
      }
      assert IsNewest(best, m);
    }
  }

  function Newest(m: Table): (id: nat)
    requires m != map[]
    ensures IsNewest(id, m)
  {
    NewestExists(m);
    var id :| IsNewest(id, m);
    id
  }

  lemma RemoveOneSize(m: Table, id: nat)
    requires id in m
    ensures |m - {id}| == |m| - 1
  {
    assert (m - {id}).Keys == m.Keys - {id};
  }

  /** The rows of `m` in listing order: the newest, then the others. */
  function Ordered(m: Table): (r: seq<ListedRow>)
    ensures |r| == |m|
    decreases |m|
  {
    if m == map[] then []
    else
      var id := Newest(m);
      RemoveOneSize(m, id);
      [ListedRow(id, m[id])] + Ordered(m - {id})
  }

  /** Every listed row is a row of `m`, unchanged. */
  lemma {:induction false} OrderedRowsComeFromTable(m: Table)
    ensures var r := Ordered(m);
      forall i :: 0 <= i < |r| ==> r[i].id in m && r[i].key == m[r[i].id]
  {
    if m != map[] {
      var top := Newest(m);
      var rest := m - {top};
      OrderedRowsComeFromTable(rest);
      var r := Ordered(m);
      forall i | 0 <= i < |r|
        ensures r[i].id in m && r[i].key == m[r[i].id]
      {
        if i > 0 {
          assert r[i] == Ordered(rest)[i - 1];
        }
      }
    }
  }

  /** No row is listed twice. */
  lemma {:induction false} OrderedHasNoDuplicates(m: Table)
    ensures var r := Ordered(m);
      forall i, j :: 0 <= i < j < |r| ==> r[i].id != r[j].id
  {
    if m != map[] {
      var id := Newest(m);
      var rest := m - {id};
      OrderedHasNoDuplicates(rest);
      OrderedRowsComeFromTable(rest);
      var r := Ordered(m);
      assert forall i :: 1 <= i < |r| ==> r[i] == Ordered(rest)[i - 1];
    }
  }

  /** The ids of a listing. */
  function Ids(r: seq<ListedRow>): set<nat> {
    if r == [] then {} else {r[0].id} + Ids(r[1..])
  }

  /** Every row of `m` is listed, and nothing else. */
  lemma {:induction false} OrderedIsComplete(m: Table)
    ensures Ids(Ordered(m)) == m.Keys
  {
    if m != map[] {
      var top := Newest(m);
      var rest := m - {top};
      OrderedIsComplete(rest);
      var r := Ordered(m);
      assert r[1..] == Ordered(rest);
      assert m.Keys == {top} + rest.Keys;
    }
  }

  /** Rows are listed newest first. */
  lemma {:induction false} OrderedNewestFirst(m: Table)
    ensures var r := Ordered(m);
      forall i, j :: 0 <= i < j < |r| ==> r[i].key.createdAt >= r[j].key.createdAt
  {
    if m != map[] {
      var top := Newest(m);
      var rest := m - {top};
      OrderedNewestFirst(rest);
      OrderedRowsComeFromTable(rest);
      var r := Ordered(m);
      forall i, j | 0 <= i < j < |r|
        ensures r[i].key.createdAt >= r[j].key.createdAt
      {
        var later := Ordered(rest)[j - 1];
        assert r[j] == later;
        if i == 0 {
          assert later.id in m && later.id != top;
          assert ListedBefore(m, top, later.id);
        } else {
          assert r[i] == Ordered(rest)[i - 1];
        }
      }
    }
  }

  /** The rows the query keeps. */
  function Filtered(t: Table, term: string): (m: Table)
    ensures forall id :: id in m <==> id in t && Selected(term, t[id])
    ensures forall id :: id in m ==> m[id] == t[id]
  {
    map id | id in t && Selected(term, t[id]) :: t[id]
  }

  /** GET /: the selected rows, newest first. */
  function Listing(t: Table, search: Option<string>): (r: seq<ListedRow>)
    ensures forall i :: 0 <= i < |r| ==>
      r[i].id in t && r[i].key == t[r[i].id] && Selected(SearchTerm(search), r[i].key)
    ensures search.None? ==> |r| == |t|
  {
    var m := Filtered(t, SearchTerm(search));
    assert search.None? ==> m.Keys == t.Keys;
    OrderedRowsComeFromTable(m);
    assert forall i :: 0 <= i < |Ordered(m)| ==>
      Ordered(m)[i].id in m && Ordered(m)[i].key == m[Ordered(m)[i].id];
    Ordered(m)
  }

  /** The listing holds every row whose key matches the term and no other,
      each once, unchanged, newest first; without a term it holds every row. */
  lemma ListingIsTheMatchingRows(t: Table, search: Option<string>)
    ensures var r := Listing(t, search);
      && (forall i :: 0 <= i < |r| ==> r[i].id in t && r[i].key == t[r[i].id]
                                       && Selected(SearchTerm(search), r[i].key))
      && (forall id :: id in t && Selected(SearchTerm(search), t[id]) ==> id in Ids(r))
      && (forall i, j :: 0 <= i < j < |r| ==> r[i].id != r[j].id)
      && (forall i, j :: 0 <= i < j < |r| ==> r[i].key.createdAt >= r[j].key.createdAt)
      && (search.None? ==> |r| == |t|)
  {
    var m := Filtered(t, SearchTerm(search));
    OrderedRowsComeFromTable(m);
    OrderedHasNoDuplicates(m);
    OrderedIsComplete(m);
    OrderedNewestFirst(m);
    if search.None? {
      assert m.Keys == t.Keys;
    }
  }
}
