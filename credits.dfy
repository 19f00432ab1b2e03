/**
 * The credit summariser: the filter, sort, slice, reduce and `Object.values`
 * chain that turns a cast list into the "Known For" and "TV Shows" lists.
 * The same pipeline runs over film credits and over TV credits; only the
 * filter field and the ranking key differ.
 */
module Credits {
  import opened JsValues
  import JsSort
  import JsObject

  /** Which of the two credit lists the pipeline runs over. */
  datatype Kind = Film | Tv

  /**
   * One record of `movie_credits.cast` or `tv_credits.cast`. Fields the
   * pipeline only carries along (title, name, release date) are left out.
   * `airDateKey` stands for `new Date(first_air_date)` as an ordered key.
   */
  datatype Credit = Credit(
    id: int,
    posterPath: Option<string>,
    firstAirDate: Option<string>,
    airDateKey: int,
    popularity: int,
    character: Option<string>)

  /** A listed credit: the record it was created from and the characters pushed onto it. */
  datatype Entry = Entry(record: Credit, characters: seq<Option<string>>)

  /** What a credits section shows: the list, or the text for a missing or empty cast. */
  datatype Section = Listed(entries: seq<Entry>) | Fallback(text: string)

  /** The argument of `.slice(0, 10)`. */
  const MaxShown: nat := 10

  /** The filter: films need a truthy `poster_path`, shows a truthy `first_air_date`. */
  predicate Passes(kind: Kind, c: Credit) {
    match kind
    case Film => Truthy(c.posterPath)
    case Tv => Truthy(c.firstAirDate)
  }

  /** The ranking key: popularity for films, first air date for shows. */
  function RankKey(kind: Kind): Credit -> int {
    match kind
    case Film => (c: Credit) => c.popularity
    case Tv => (c: Credit) => c.airDateKey
  }

  function FallbackText(kind: Kind): string {
    match kind
    case Film => "No known movies available."
    case Tv => "No TV show credits available."
  }

  /** `.filter(...)`: the records that pass, in their order in the cast. */
  function Eligible(kind: Kind, cast: seq<Credit>): (r: seq<Credit>)
    ensures |r| <= |cast|
    ensures forall c :: c in r <==> c in cast && Passes(kind, c)
  {
    if cast == [] then []
    else
      assert cast == [cast[0]] + cast[1..];
      (if Passes(kind, cast[0]) then [cast[0]] else []) + Eligible(kind, cast[1..])
  }

  /** `.sort(...)`: stable, by descending rank key. */
  function Ranked(kind: Kind, s: seq<Credit>): (r: seq<Credit>)
    ensures multiset(r) == multiset(s)
    ensures JsSort.Descending(r, RankKey(kind))
  {
    JsSort.SortDesc(s, RankKey(kind))
  }

  /** `.slice(0, 10)`: the first ten records, or all of them when there are fewer. */
  function Capped(s: seq<Credit>): (r: seq<Credit>)
    ensures |r| == if |s| < MaxShown then |s| else MaxShown
    ensures r <= s
  {
    s[..if |s| < MaxShown then |s| else MaxShown]
  }

  /** The records the reduce folds over: filtered, ranked and capped. */
  function Shortlist(kind: Kind, cast: seq<Credit>): seq<Credit> {
    Capped(Ranked(kind, Eligible(kind, cast)))
  }

  // ---------------------------------------------------------------------
  // What the reduce computes, stated without the fold
  // ---------------------------------------------------------------------

  /** The id of every record, in order. */
  function Ids(s: seq<Credit>): (r: seq<int>)
    ensures |r| == |s|
  {
    seq(|s|, i requires 0 <= i < |s| => s[i].id)
  }

  /** The `character` of every record with this id, in order, repeats and absent names included. */
  function Characters(s: seq<Credit>, id: int): (r: seq<Option<string>>)
    ensures id !in Ids(s) ==> r == []
    ensures |r| <= |s|
  {
    if s == [] then []
    else
      var n := |s| - 1;
      assert Ids(s) == Ids(s[..n]) + [s[n].id];
      Characters(s[..n], id) + (if s[n].id == id then [s[n].character] else [])
  }

  /** The position of the first record with this id. */
  function FirstIndex(s: seq<Credit>, id: int): (i: nat)
    requires id in Ids(s)
    ensures i < |s| && s[i].id == id
    ensures forall j :: 0 <= j < i ==> s[j].id != id
  {
    var n := |s| - 1;
    assert Ids(s) == Ids(s[..n]) + [s[n].id];
    if id in Ids(s[..n]) then FirstIndex(s[..n], id)
    else
      assert forall j :: 0 <= j < n ==> s[j].id == Ids(s[..n])[j];
      n
  }

  /** The distinct ids in the order of their first record: the order the keys are created in. */
  function FirstSeen(s: seq<Credit>): (r: seq<int>)
    ensures JsObject.Distinct(r)
    ensures forall id :: id in r <==> id in Ids(s)
    ensures |r| <= |s|
  {
    if s == [] then []
    else
      var n := |s| - 1;
      assert Ids(s) == Ids(s[..n]) + [s[n].id];
      var p := FirstSeen(s[..n]);
      if s[n].id in p then p else p + [s[n].id]
  }

  /**
   * The object the reduce returns: one property per distinct id, created in
   * first-seen order, holding the first record with that id and the
   * characters of all records with that id.
   */
  function Grouped(s: seq<Credit>): (o: JsObject.PlainObject<Entry>)
    ensures o.Valid()
  {
    JsObject.PlainObject(
      map id | id in FirstSeen(s) :: Entry(s[FirstIndex(s, id)], Characters(s, id)),
      FirstSeen(s))
  }

  /** The displayed list: `Object.values` of the grouped shortlist. */
  function Summary(kind: Kind, cast: seq<Credit>): seq<Entry> {
    JsObject.Values(Grouped(Shortlist(kind, cast)))
  }

  /** The "Known For" or "TV Shows" section for a cast that may be absent. */
  function CreditsSection(kind: Kind, cast: Option<seq<Credit>>): (section: Section)
    ensures section.Fallback? <==> cast.None? || |cast.value| == 0
    ensures section.Listed? ==> |section.entries| <= MaxShown
  {
    if cast.Some? && |cast.value| > 0 then
      SummaryBound(kind, cast.value);
      Listed(Summary(kind, cast.value))
    else Fallback(FallbackText(kind))
  }

  // ---------------------------------------------------------------------
  // The pipeline as the component runs it
  // ---------------------------------------------------------------------

  /**
   * The `reduce`: for each record, create the property for its id if there
   * is none yet (a copy of the record with an empty character list), then
   * push the record's character onto that property's list.
   */
  method GroupById(ranked: seq<Credit>) returns (acc: JsObject.PlainObject<Entry>)
    ensures acc == Grouped(ranked)
  {
    acc := JsObject.PlainObject(map[], []);
    for i := 0 to |ranked|
      invariant acc == Grouped(ranked[..i])
    {
      var credit := ranked[i];
      ghost var before := acc;
      if credit.id !in acc.props {
        acc := acc.(props := acc.props[credit.id := Entry(credit, [])],
                    creationOrder := acc.creationOrder + [credit.id]);
      }
      var entry := acc.props[credit.id];
      acc := acc.(props := acc.props[credit.id := entry.(characters := entry.characters + [credit.character])]);
      assert acc == Grouped(ranked[..i + 1]) by {
        assert ranked[..i + 1] == ranked[..i] + [credit];
        GroupedOrderSnoc(ranked[..i], credit);
        GroupedPropsSnoc(ranked[..i], credit);
        if credit.id !in before.props {
          assert [] + [credit.character] == [credit.character];
          OverwriteEntry(before.props, credit.id, Entry(credit, []), Entry(credit, [credit.character]));
        }
        assert acc.props == SnocProps(before.props, credit);
      }
    }
    assert ranked[..|ranked|] == ranked;
  }

  /** One credits section: the fallback text for a missing or empty cast, otherwise the pipeline's list. */
  method SummariseCredits(kind: Kind, cast: Option<seq<Credit>>) returns (section: Section)
    ensures section == CreditsSection(kind, cast)
  {
    if cast.Some? && |cast.value| > 0 {
      var shortlist := Capped(Ranked(kind, Eligible(kind, cast.value)));
      var acc := GroupById(shortlist);
      section := Listed(JsObject.Values(acc));
    } else {
      section := Fallback(FallbackText(kind));
    }
  }

  // ---------------------------------------------------------------------
  // Lemmas
  // ---------------------------------------------------------------------

  lemma OverwriteEntry(m: map<int, Entry>, k: int, a: Entry, b: Entry)
    ensures m[k := a][k := b] == m[k := b]
  {
  }

  lemma CharactersSnoc(s: seq<Credit>, x: Credit, id: int)
    ensures Characters(s + [x], id) == Characters(s, id) + (if x.id == id then [x.character] else [])
  {
    assert (s + [x])[..|s|] == s;
  }

  lemma FirstIndexSnoc(s: seq<Credit>, x: Credit, id: int)
    requires id in Ids(s)
    ensures id in Ids(s + [x]) && FirstIndex(s + [x], id) == FirstIndex(s, id)
  {
    assert (s + [x])[..|s|] == s;
    assert Ids(s + [x]) == Ids(s) + [x.id];
  }

  /** How one more record changes one property of the grouped object. */
  lemma GroupedEntrySnoc(s: seq<Credit>, x: Credit, id: int)
    requires id in Grouped(s + [x]).props
    ensures id in Grouped(s).props || id == x.id
    ensures id in Grouped(s).props ==>
      Grouped(s + [x]).props[id] == Entry(Grouped(s).props[id].record,
        Grouped(s).props[id].characters + (if id == x.id then [x.character] else []))
    ensures id !in Grouped(s).props ==> Grouped(s + [x]).props[id] == Entry(x, [x.character])
  {
    assert (s + [x])[..|s|] == s;
    assert Ids(s + [x]) == Ids(s) + [x.id];
    CharactersSnoc(s, x, id);
    if id in Grouped(s).props {
      FirstIndexSnoc(s, x, id);
    }
  }

  /** One more record adds its id to the creation order unless a property for it exists. */
  lemma GroupedOrderSnoc(s: seq<Credit>, x: Credit)
    ensures var g, h := Grouped(s), Grouped(s + [x]);
      h.creationOrder == if x.id in g.props then g.creationOrder else g.creationOrder + [x.id]
  {
    assert (s + [x])[..|s|] == s;
  }

  lemma GroupedKeysSnoc(s: seq<Credit>, x: Credit)
    ensures Grouped(s + [x]).props.Keys == Grouped(s).props.Keys + {x.id}
  {
    var g, h := Grouped(s), Grouped(s + [x]);
    GroupedOrderSnoc(s, x);
    assert forall k :: k in h.props <==> k in h.creationOrder;
    assert forall k :: k in g.props <==> k in g.creationOrder;
  }

  /** The value of a property after one more record. */
  function SnocProps(g: map<int, Entry>, x: Credit): map<int, Entry> {
    if x.id in g then g[x.id := g[x.id].(characters := g[x.id].characters + [x.character])]
    else g[x.id := Entry(x, [x.character])]
  }

  lemma GroupedPropsSnoc(s: seq<Credit>, x: Credit)
    ensures Grouped(s + [x]).props == SnocProps(Grouped(s).props, x)
  {
    var h, expected := Grouped(s + [x]).props, SnocProps(Grouped(s).props, x);
    GroupedKeysSnoc(s, x);
    assert h.Keys == expected.Keys;
    forall id | id in h ensures h[id] == expected[id] {
      GroupedValueSnoc(s, x, id);
    }
  }

  lemma GroupedValueSnoc(s: seq<Credit>, x: Credit, id: int)
    requires id in Grouped(s + [x]).props
    ensures id in SnocProps(Grouped(s).props, x)
    ensures Grouped(s + [x]).props[id] == SnocProps(Grouped(s).props, x)[id]
  {
    var g := Grouped(s).props;
    GroupedEntrySnoc(s, x, id);
    if id != x.id {
      assert g[id].characters + [] == g[id].characters;
    }
  }

  /** How one more record changes the grouped object: the step the reduce's callback takes. */
  lemma GroupedSnoc(s: seq<Credit>, x: Credit)
    ensures var g, h := Grouped(s), Grouped(s + [x]);
      if x.id in g.props then
        && h.creationOrder == g.creationOrder
        && h.props == g.props[x.id := g.props[x.id].(characters := g.props[x.id].characters + [x.character])]
      else
        && h.creationOrder == g.creationOrder + [x.id]
        && h.props == g.props[x.id := Entry(x, [x.character])]
  {
    GroupedOrderSnoc(s, x);
    GroupedPropsSnoc(s, x);
  }

  /** The shortlist holds at most ten records, all from the cast and all passing the filter. */
  lemma ShortlistBound(kind: Kind, cast: seq<Credit>)
    ensures var e, sl := Eligible(kind, cast), Shortlist(kind, cast);
      && |sl| == (if |e| < MaxShown then |e| else MaxShown)
      && forall c :: c in sl ==> c in cast && Passes(kind, c)
  {
    var e := Eligible(kind, cast);
    var ranked := Ranked(kind, e);
    var sl := Shortlist(kind, cast);
    forall c | c in sl ensures c in cast && Passes(kind, c) {
      assert c in ranked;
      assert c in multiset(ranked);
    }
  }

  /**
   * The shortlist is the top of the ranking: its keys descend, and no record
   * of the filtered cast left out of it ranks above any record kept.
   */
  lemma ShortlistIsTop(kind: Kind, cast: seq<Credit>)
    ensures var sl, ranked := Shortlist(kind, cast), Ranked(kind, Eligible(kind, cast));
      && JsSort.Descending(sl, RankKey(kind))
      && sl == ranked[..|sl|]
      && forall i, j :: 0 <= i < |sl| <= j < |ranked| ==> RankKey(kind)(sl[i]) >= RankKey(kind)(ranked[j])
  {
  }

  /** The filter keeps the cast's order: filtering a concatenation concatenates the filtered parts. */
  lemma {:induction false} EligibleAppend(kind: Kind, a: seq<Credit>, b: seq<Credit>)
    ensures Eligible(kind, a + b) == Eligible(kind, a) + Eligible(kind, b)
  {
    if a == [] {
      assert a + b == b;
    } else {
      assert (a + b)[1..] == a[1..] + b;
      EligibleAppend(kind, a[1..], b);
    }
  }

  /** The filter keeps every passing record as often as the cast holds it, and no other. */
  lemma {:induction false} EligibleCount(kind: Kind, cast: seq<Credit>, c: Credit)
    ensures multiset(Eligible(kind, cast))[c] == if Passes(kind, c) then multiset(cast)[c] else 0
  {
    if cast != [] {
      var head := if Passes(kind, cast[0]) then [cast[0]] else [];
      EligibleCount(kind, cast[1..], c);
      assert cast == [cast[0]] + cast[1..];
      assert multiset(cast)[c] == multiset([cast[0]])[c] + multiset(cast[1..])[c];
      assert multiset(Eligible(kind, cast))[c] == multiset(head)[c] + multiset(Eligible(kind, cast[1..]))[c];
    }
  }

  /** Filtering by the filter's condition and by a key value can be done in either order. */
  lemma {:induction false} EligibleWithKey(kind: Kind, cast: seq<Credit>, key: Credit -> int, v: int)
    ensures JsSort.WithKey(Eligible(kind, cast), key, v) == Eligible(kind, JsSort.WithKey(cast, key, v))
  {
    if cast != [] {
      var c, rest := cast[0], cast[1..];
      var e, w := Eligible(kind, rest), JsSort.WithKey(rest, key, v);
      EligibleWithKey(kind, rest, key, v);
      assert Eligible(kind, cast) == (if Passes(kind, c) then [c] else []) + e;
      assert JsSort.WithKey(cast, key, v) == (if key(c) == v then [c] else []) + w;
      var lhs := JsSort.WithKey(Eligible(kind, cast), key, v);
      var rhs := Eligible(kind, JsSort.WithKey(cast, key, v));
      if Passes(kind, c) {
        assert ([c] + e)[1..] == e;
        assert lhs == (if key(c) == v then [c] else []) + JsSort.WithKey(e, key, v);
      } else {
        assert [] + e == e;
        assert lhs == JsSort.WithKey(e, key, v);
      }
      if key(c) == v {
        assert ([c] + w)[1..] == w;
        assert rhs == (if Passes(kind, c) then [c] else []) + Eligible(kind, w);
      } else {
        assert [] + w == w;
        assert rhs == Eligible(kind, w);
      }
    }
  }

  /**
   * Stability of the ranking: the filtered records that share a key appear
   * after ranking in the order they have in the cast.
   */
  lemma RankedStable(kind: Kind, cast: seq<Credit>, v: int)
    ensures var key := RankKey(kind);
      && JsSort.WithKey(Ranked(kind, Eligible(kind, cast)), key, v) == JsSort.WithKey(Eligible(kind, cast), key, v)
      && JsSort.WithKey(Ranked(kind, Eligible(kind, cast)), key, v) == Eligible(kind, JsSort.WithKey(cast, key, v))
  {
    JsSort.SortDescStable(Eligible(kind, cast), RankKey(kind), v);
    EligibleWithKey(kind, cast, RankKey(kind), v);
  }

  /** The listed entries are indexed, one to one, by the property keys of the grouped object. */
  lemma {:induction false} SummaryKeys(kind: Kind, cast: seq<Credit>)
    ensures var sl, r := Shortlist(kind, cast), Summary(kind, cast);
      var keys := JsObject.OwnKeys(FirstSeen(sl));
      && |r| == |keys|
      && (forall i :: 0 <= i < |keys| ==> keys[i] in Grouped(sl).props)
      && forall i :: 0 <= i < |r| ==> r[i] == Grouped(sl).props[keys[i]] && r[i].record.id == keys[i]
  {
    var sl := Shortlist(kind, cast);
    var g := Grouped(sl);
    var keys := JsObject.OwnKeys(FirstSeen(sl));
    JsObject.OwnKeysMembers(FirstSeen(sl), g.props);
    assert Summary(kind, cast) == JsObject.ValuesAt(g.props, keys);
    GroupedRecordIds(sl);
  }

  /** Each property holds a record with the property's own id. */
  lemma GroupedRecordIds(s: seq<Credit>)
    ensures forall id :: id in Grouped(s).props ==> Grouped(s).props[id].record.id == id
  {
  }

  /** At most ten entries, and no more than the records that pass the filter. */
  lemma SummaryBound(kind: Kind, cast: seq<Credit>)
    ensures |Summary(kind, cast)| <= MaxShown
    ensures |Summary(kind, cast)| <= |Eligible(kind, cast)|
  {
    SummaryKeys(kind, cast);
    ShortlistBound(kind, cast);
    var order := FirstSeen(Shortlist(kind, cast));
    assert |JsObject.OwnKeys(order)| == |multiset(order)| == |order|;
  }

  /** No id is listed twice. */
  lemma SummaryDistinctIds(kind: Kind, cast: seq<Credit>)
    ensures var r := Summary(kind, cast);
      forall i, j :: 0 <= i < j < |r| ==> r[i].record.id != r[j].record.id
  {
    var sl := Shortlist(kind, cast);
    SummaryKeys(kind, cast);
    JsObject.OwnKeysDistinct(FirstSeen(sl));
  }

  /** Every id of the shortlist is listed, and no other. */
  lemma SummaryCoversIds(kind: Kind, cast: seq<Credit>)
    ensures var sl, r := Shortlist(kind, cast), Summary(kind, cast);
      forall id :: id in Ids(sl) <==> exists i :: 0 <= i < |r| && r[i].record.id == id
  {
    var sl, r := Shortlist(kind, cast), Summary(kind, cast);
    var order := FirstSeen(sl);
    var keys := JsObject.OwnKeys(order);
    SummaryKeys(kind, cast);
    assert forall id :: id in keys <==> id in order by {
      forall id ensures id in keys <==> id in order {
        assert id in keys <==> id in multiset(keys);
      }
    }
    forall id | id in Ids(sl) ensures exists i :: 0 <= i < |r| && r[i].record.id == id {
      var i :| 0 <= i < |keys| && keys[i] == id;
      assert r[i].record.id == id;
    }
    forall i | 0 <= i < |r| ensures r[i].record.id in Ids(sl) {
      assert keys[i] in keys;
    }
  }

  /**
   * Each entry holds the first-ranked record with its id and the characters
   * of every record with that id, in ranked order.
   */
  lemma SummaryEntryFields(kind: Kind, cast: seq<Credit>)
    ensures var sl, r := Shortlist(kind, cast), Summary(kind, cast);
      forall i :: 0 <= i < |r| ==>
        && r[i].record.id in Ids(sl)
        && r[i].record == sl[FirstIndex(sl, r[i].record.id)]
        && r[i].characters == Characters(sl, r[i].record.id)
  {
    var sl, r := Shortlist(kind, cast), Summary(kind, cast);
    var keys := JsObject.OwnKeys(FirstSeen(sl));
    SummaryKeys(kind, cast);
    forall i | 0 <= i < |r| ensures r[i].record.id in Ids(sl) {
      assert keys[i] in Grouped(sl).props;
    }
  }

  /**
   * `Object.values` lists the entries by ascending id, not by rank, whenever
   * every id is an array index (as the service's ids are).
   */
  lemma {:induction false} SummaryAscending(kind: Kind, cast: seq<Credit>)
    requires forall c :: c in cast ==> JsObject.IsArrayIndex(c.id)
    ensures var r := Summary(kind, cast);
      forall i, j :: 0 <= i < j < |r| ==> r[i].record.id < r[j].record.id
  {
    var sl := Shortlist(kind, cast);
    ShortlistBound(kind, cast);
    SummaryKeys(kind, cast);
    forall k | k in FirstSeen(sl) ensures JsObject.IsArrayIndex(k) {
      var i :| 0 <= i < |sl| && Ids(sl)[i] == k;
      assert sl[i] in sl;
    }
    JsObject.OwnKeysAscending(FirstSeen(sl));
  }

  /** Total number of characters over a list of entries. */
  function TotalCharacters(entries: seq<Entry>): nat {
    if entries == [] then 0 else |entries[0].characters| + TotalCharacters(entries[1..])
  }

  /** The sum of `f` over `ks`. */
  function SumOver(ks: seq<int>, f: int -> nat): nat {
    if ks == [] then 0 else f(ks[0]) + SumOver(ks[1..], f)
  }

  lemma {:induction false} SumOverAppend(a: seq<int>, b: seq<int>, f: int -> nat)
    ensures SumOver(a + b, f) == SumOver(a, f) + SumOver(b, f)
  {
    if a == [] {
      assert a + b == b;
    } else {
      assert (a + b)[1..] == a[1..] + b;
      SumOverAppend(a[1..], b, f);
    }
  }

  lemma SumOverRemove(b: seq<int>, j: int, f: int -> nat)
    requires 0 <= j < |b|
    ensures SumOver(b, f) == f(b[j]) + SumOver(b[..j] + b[j + 1..], f)
  {
    assert b == b[..j] + ([b[j]] + b[j + 1..]);
    SumOverAppend(b[..j], [b[j]] + b[j + 1..], f);
    assert ([b[j]] + b[j + 1..])[1..] == b[j + 1..];
    SumOverAppend(b[..j], b[j + 1..], f);
  }

  lemma MultisetRemove(a: seq<int>, b: seq<int>, j: int)
    requires multiset(a) == multiset(b) && a != [] && 0 <= j < |b| && b[j] == a[0]
    ensures multiset(a[1..]) == multiset(b[..j] + b[j + 1..])
  {
    assert b == b[..j] + [b[j]] + b[j + 1..];
    assert a == [a[0]] + a[1..];
    assert multiset(b) == multiset(b[..j]) + multiset{b[j]} + multiset(b[j + 1..]);
    assert multiset(a[1..]) == multiset(a) - multiset{a[0]};
  }

  lemma {:induction false} SumOverPermutation(a: seq<int>, b: seq<int>, f: int -> nat)
    requires multiset(a) == multiset(b)
    ensures SumOver(a, f) == SumOver(b, f)
  {
    if a == [] {
      assert |b| == |multiset(b)| == 0;
    } else {
      assert a[0] in multiset(b);
      var j :| 0 <= j < |b| && b[j] == a[0];
      MultisetRemove(a, b, j);
      SumOverPermutation(a[1..], b[..j] + b[j + 1..], f);
      SumOverRemove(b, j, f);
    }
  }

  /** Total number of characters the records of `s` give to the keys `ks`. */
  function CharacterCount(s: seq<Credit>, ks: seq<int>): nat {
    SumOver(ks, k => |Characters(s, k)|)
  }

  lemma {:induction false} CharacterCountSnoc(s: seq<Credit>, x: Credit, ks: seq<int>)
    requires JsObject.Distinct(ks)
    ensures CharacterCount(s + [x], ks) == CharacterCount(s, ks) + (if x.id in ks then 1 else 0)
  {
    if ks != [] {
      CharactersSnoc(s, x, ks[0]);
      CharacterCountSnoc(s, x, ks[1..]);
      assert ks == [ks[0]] + ks[1..];
    }
  }

  lemma {:induction false} CharacterCountFirstSeen(s: seq<Credit>)
    ensures CharacterCount(s, FirstSeen(s)) == |s|
  {
    if s != [] {
      var n := |s| - 1;
      var t, x := s[..n], s[n];
      assert s == t + [x];
      var p := FirstSeen(t);
      CharacterCountFirstSeen(t);
      CharacterCountSnoc(t, x, p);
      if x.id !in p {
        SumOverAppend(p, [x.id], k => |Characters(s, k)|);
        CharactersSnoc(t, x, x.id);
        assert x.id !in Ids(t);
      }
    }
  }

  lemma {:induction false} TotalOfValues(s: seq<Credit>, ks: seq<int>)
    requires forall i :: 0 <= i < |ks| ==> ks[i] in Grouped(s).props
    ensures TotalCharacters(JsObject.ValuesAt(Grouped(s).props, ks)) == CharacterCount(s, ks)
  {
    if ks != [] {
      var props := Grouped(s).props;
      TotalOfValues(s, ks[1..]);
      assert JsObject.ValuesAt(props, ks)[1..] == JsObject.ValuesAt(props, ks[1..]);
    }
  }

  /** The character lists together hold exactly one character per shortlisted record. */
  lemma CharacterTotal(kind: Kind, cast: seq<Credit>)
    ensures TotalCharacters(Summary(kind, cast)) == |Shortlist(kind, cast)|
  {
    var sl := Shortlist(kind, cast);
    var order := FirstSeen(sl);
    var keys := JsObject.OwnKeys(order);
    JsObject.OwnKeysMembers(order, Grouped(sl).props);
    TotalOfValues(sl, keys);
    SumOverPermutation(keys, order, k => |Characters(sl, k)|);
    CharacterCountFirstSeen(sl);
  }

  lemma {:induction false} NoneEligible(kind: Kind, cast: seq<Credit>)
    requires forall c :: c in cast ==> !Passes(kind, c)
    ensures Eligible(kind, cast) == []
  {
    if cast != [] {
      assert cast[0] in cast;
      NoneEligible(kind, cast[1..]);
    }
  }

  /**
   * The fallback text appears exactly when the cast is absent or empty; a
   * cast whose records all fail the filter gives an empty list instead.
   */
  lemma FallbackOnlyForMissingCast(kind: Kind, cast: Option<seq<Credit>>)
    ensures CreditsSection(kind, cast).Fallback? <==> cast.None? || cast.value == []
    ensures CreditsSection(kind, cast).Fallback? ==> CreditsSection(kind, cast).text == FallbackText(kind)
    ensures cast.Some? && cast.value != [] && (forall c :: c in cast.value ==> !Passes(kind, c))
      ==> CreditsSection(kind, cast) == Listed([])
  {
    if cast.Some? && cast.value != [] && (forall c :: c in cast.value ==> !Passes(kind, c)) {
      var sl := Shortlist(kind, cast.value);
      NoneEligible(kind, cast.value);
      assert sl == [];
      SummaryKeys(kind, cast.value);
    }
  }
}
