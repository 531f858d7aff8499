/** The glossary store: the `terms` table as a sequence in storage order, the
    `synonyms` and `similar_words` pair tables as sets of id pairs, and the id
    sequence. Every operation is a pure function from the store before to the
    store after; an operation whose Python counterpart raises inside its
    database session returns `Failure`, and the caller keeps the store it had
    (the session is closed without a commit). */
module TermCollection {
  import opened Wrappers
  import opened Text
  import opened Database

  /** A pair table. Its two columns form the primary key, so it is a set. */
  type Relation = set<(nat, nat)>

  datatype Store = Store(terms: seq<Term>, synonyms: Relation, similars: Relation, nextId: nat)

  /** A freshly created database; `terms_id_seq` starts at 1. */
  const Empty: Store := Store([], {}, {}, 1)

  datatype StoreError =
    | NoSuchTerm     // an attribute or item of a term the query did not find
    | InvalidValue   // a string that names no member of the enum column

  /** The `table` argument of `add_synonyms_similars`: only `'synonyms'` and
      `'similars'` are recognised; any other string selects no table. */
  datatype Table = Synonyms | Similars | Other

  function Ids(s: Store): set<nat>
  {
    set t | t in s.terms :: t.id
  }

  /** Every row of a pair table refers to stored terms (the foreign keys), and
      the table holds each pair in both directions (every link is made both ways). */
  predicate PairsOk(rel: Relation, ids: set<nat>)
  {
    forall p :: p in rel ==> p.0 in ids && p.1 in ids && (p.1, p.0) in rel
  }

  /** The store's integrity: ids are a primary key and were drawn from the
      sequence, and both pair tables are well formed. */
  predicate Valid(s: Store)
  {
    && (forall i, j :: 0 <= i < j < |s.terms| ==> s.terms[i].id != s.terms[j].id)
    && (forall i :: 0 <= i < |s.terms| ==> s.terms[i].id < s.nextId)
    && PairsOk(s.synonyms, Ids(s))
    && PairsOk(s.similars, Ids(s))
  }

  predicate Prefix(a: seq<Term>, b: seq<Term>)
  {
    |a| <= |b| && b[..|a|] == a
  }

  lemma PrefixTransitive(a: seq<Term>, b: seq<Term>, c: seq<Term>)
    requires Prefix(a, b) && Prefix(b, c)
    ensures Prefix(a, c)
  {
    assert c[..|a|] == c[..|b|][..|a|];
  }

  // ----- names -----

  /** `exists().where(Term.name == n)`. */
  predicate HasName(ts: seq<Term>, n: string)
  {
    exists t :: t in ts && t.name == n
  }

  /** `query(Term).filter(Term.name == n).all()`, in storage order. */
  function Named(ts: seq<Term>, n: string): (r: seq<Term>)
    ensures forall t :: t in r <==> t in ts && t.name == n
    ensures |r| > 0 <==> HasName(ts, n)
  {
    if |ts| == 0 then []
    else
      var init := ts[..|ts| - 1];
      assert ts == init + [ts[|ts| - 1]];
      Named(init, n) + (if ts[|ts| - 1].name == n then [ts[|ts| - 1]] else [])
  }

  /** Each stored term of the name is listed as often as it is stored, and no
      other term is listed: the row count `len(...)` reads is exact. */
  lemma {:induction false} NamedCount(ts: seq<Term>, n: string)
    ensures forall t :: multiset(Named(ts, n))[t] == if t.name == n then multiset(ts)[t] else 0
    decreases |ts|
  {
    if |ts| > 0 {
      var init := ts[..|ts| - 1];
      assert ts == init + [ts[|ts| - 1]];
      NamedCount(init, n);
    }
  }

  function CountNamed(ts: seq<Term>, n: string): nat
  {
    |Named(ts, n)|
  }

  /** No two stored terms share a name: the `unique=True` declaration on `name`. */
  ghost predicate UniqueNames(ts: seq<Term>)
  {
    forall n :: CountNamed(ts, n) <= 1
  }

  lemma {:induction false} NamedAppend(a: seq<Term>, b: seq<Term>, n: string)
    ensures Named(a + b, n) == Named(a, n) + Named(b, n)
    decreases |b|
  {
    if |b| == 0 {
      assert a + b == a;
    } else {
      var b' := b[..|b| - 1];
      var last := b[|b| - 1];
      var x := if last.name == n then [last] else [];
      assert (a + b)[..|a + b| - 1] == a + b';
      assert (a + b)[|a + b| - 1] == last;
      assert Named(a + b, n) == Named(a + b', n) + x;
      assert Named(b, n) == Named(b', n) + x;
      NamedAppend(a, b', n);
      ConcatAssoc(Named(a, n), Named(b', n), x);
    }
  }

  /** Appending terms that do not carry a name the prefix already has leaves the
      matches of every name of the prefix as they were. */
  lemma NamedOfExtension(a: seq<Term>, b: seq<Term>, n: string)
    requires Prefix(a, b)
    requires HasName(a, n)
    requires CountNamed(b, n) == CountNamed(a, n)
    ensures Named(b, n) == Named(a, n)
  {
    assert b == a + b[|a|..];
    NamedAppend(a, b[|a|..], n);
  }

  // ----- reading -----

  /** Position of the first term with the given id. */
  function IndexOf(ts: seq<Term>, id: nat): (r: Option<nat>)
    ensures r.Some? ==> r.value < |ts| && ts[r.value].id == id
    ensures r.Some? ==> forall j :: 0 <= j < r.value ==> ts[j].id != id
    ensures r.None? ==> forall j :: 0 <= j < |ts| ==> ts[j].id != id
  {
    if |ts| == 0 then None
    else if ts[0].id == id then Some(0)
    else
      match IndexOf(ts[1..], id)
      case None => None
      case Some(k) => Some(k + 1)
  }

  /** `get(term_id)`: the term with that id, or `None`. */
  function Get(s: Store, id: nat): (r: Option<Term>)
    ensures r.None? <==> id !in Ids(s)
    ensures r.Some? ==> r.value in s.terms && r.value.id == id
  {
    match IndexOf(s.terms, id)
    case None => None
    case Some(i) => Some(s.terms[i])
  }

  /** With ids a primary key, `get` finds the term stored at any position. */
  lemma GetAt(s: Store, i: nat)
    requires Valid(s) && i < |s.terms|
    ensures Get(s, s.terms[i].id) == Some(s.terms[i])
  {
  }

  /** The terms that a pair table relates to `id`, in storage order. */
  function Related(ts: seq<Term>, id: nat, rel: Relation): (r: seq<Term>)
    ensures forall t :: t in r <==> t in ts && (id, t.id) in rel
    ensures forall t :: multiset(r)[t] == if (id, t.id) in rel then multiset(ts)[t] else 0
  {
    if |ts| == 0 then []
    else
      var init := ts[..|ts| - 1];
      assert ts == init + [ts[|ts| - 1]];
      Related(init, id, rel) + (if (id, ts[|ts| - 1].id) in rel then [ts[|ts| - 1]] else [])
  }

  /** `get_synonyms(term_id)`: `None` when no term has that id (the source then
      fails on `None.synonyms`), otherwise every term paired with it. */
  function GetSynonyms(s: Store, id: nat): (r: Option<seq<Term>>)
    ensures r.None? <==> id !in Ids(s)
    ensures r.Some? ==> forall t :: t in r.value <==> t in s.terms && (id, t.id) in s.synonyms
    ensures r.Some? ==> forall t :: multiset(r.value)[t] == if (id, t.id) in s.synonyms then multiset(s.terms)[t] else 0
  {
    if id in Ids(s) then Some(Related(s.terms, id, s.synonyms)) else None
  }

  /** `get_similars(term_id)`, over the similar-words table. */
  function GetSimilars(s: Store, id: nat): (r: Option<seq<Term>>)
    ensures r.None? <==> id !in Ids(s)
    ensures r.Some? ==> forall t :: t in r.value <==> t in s.terms && (id, t.id) in s.similars
    ensures r.Some? ==> forall t :: multiset(r.value)[t] == if (id, t.id) in s.similars then multiset(s.terms)[t] else 0
  {
    if id in Ids(s) then Some(Related(s.terms, id, s.similars)) else None
  }

  /** The related terms of a concatenation are those of each part, in order:
      the listing keeps storage order. */
  lemma {:induction false} RelatedAppend(a: seq<Term>, b: seq<Term>, id: nat, rel: Relation)
    ensures Related(a + b, id, rel) == Related(a, id, rel) + Related(b, id, rel)
    decreases |b|
  {
    if |b| == 0 {
      assert a + b == a;
    } else {
      var b' := b[..|b| - 1];
      var last := b[|b| - 1];
      var x := if (id, last.id) in rel then [last] else [];
      assert (a + b)[..|a + b| - 1] == a + b';
      assert (a + b)[|a + b| - 1] == last;
      assert Related(a + b, id, rel) == Related(a + b', id, rel) + x;
      assert Related(b, id, rel) == Related(b', id, rel) + x;
      RelatedAppend(a, b', id, rel);
      ConcatAssoc(Related(a, id, rel), Related(b', id, rel), x);
    }
  }

  /** In a valid store both relations read the same from either end. */
  lemma RelatedSymmetric(s: Store, t: Term, u: Term)
    requires Valid(s) && t in s.terms && u in s.terms
    ensures u in GetSynonyms(s, t.id).value <==> t in GetSynonyms(s, u.id).value
    ensures u in GetSimilars(s, t.id).value <==> t in GetSimilars(s, u.id).value
  {
  }

  // ----- create -----

  /** Adds a term with every optional column null and the next id of the sequence. */
  function Insert(s: Store, name: string): Store
  {
    Store(s.terms + [Blank(s.nextId, name)], s.synonyms, s.similars, s.nextId + 1)
  }

  lemma InsertCounts(s: Store, name: string)
    ensures Prefix(s.terms, Insert(s, name).terms)
    ensures forall n :: CountNamed(Insert(s, name).terms, n) == CountNamed(s.terms, n) + (if n == name then 1 else 0)
  {
    var ts := Insert(s, name).terms;
    assert ts[..|ts| - 1] == s.terms;
  }

  lemma InsertValid(s: Store, name: string)
    requires Valid(s)
    ensures Valid(Insert(s, name))
    ensures Ids(Insert(s, name)) == Ids(s) + {s.nextId}
  {
    AppendValid(s, Blank(s.nextId, name));
  }

  /** `create(term_name)`: the name is lower-cased, and a term with that name is
      inserted exactly when none exists. Existing terms and both pair tables are
      left alone. */
  function Create(s: Store, termName: string): (r: Store)
    ensures HasName(r.terms, Lower(termName))
    ensures Prefix(s.terms, r.terms)
    ensures r.synonyms == s.synonyms && r.similars == s.similars
    ensures forall n :: CountNamed(r.terms, n) == CountNamed(s.terms, n) + (if n == Lower(termName) && !HasName(s.terms, n) then 1 else 0)
    ensures !HasName(s.terms, Lower(termName)) ==> |r.terms| == |s.terms| + 1 && r.terms[|s.terms|] == Blank(s.nextId, Lower(termName))
    ensures HasName(s.terms, Lower(termName)) ==> r == s
  {
    var name := Lower(termName);
    if HasName(s.terms, name) then s
    else
      InsertCounts(s, name);
      assert Insert(s, name).terms[|s.terms|] in Insert(s, name).terms;
      Insert(s, name)
  }

  /** Creating the same name twice has the effect of creating it once. */
  lemma CreateIdempotent(s: Store, termName: string)
    ensures Create(Create(s, termName), termName) == Create(s, termName)
  {
  }

  lemma CreateValid(s: Store, termName: string)
    requires Valid(s)
    ensures Valid(Create(s, termName))
    ensures Ids(s) <= Ids(Create(s, termName))
  {
    if !HasName(s.terms, Lower(termName)) {
      InsertValid(s, Lower(termName));
    }
  }

  /** `create` never introduces a second term with the same name. */
  lemma CreateKeepsNamesUnique(s: Store, termName: string)
    requires UniqueNames(s.terms)
    ensures UniqueNames(Create(s, termName).terms)
  {
    var r := Create(s, termName);
    forall n
      ensures CountNamed(r.terms, n) <= 1
    {
      if n == Lower(termName) && !HasName(s.terms, n) {
        assert CountNamed(s.terms, n) == 0;
      }
    }
  }

  // ----- update -----

  /** The term `t` is new with id `id` and name `name`, and holds `v` under `a` and
      nothing under any other item. */
  predicate Carries(t: Term, id: nat, name: string, a: Attribute, v: Value)
  {
    && t.id == id && t.name == name
    && GetItem(t, a) == v
    && forall b :: b != a ==> GetItem(t, b) == Null
  }

  /** `new_term = Term(name=term.name); new_term[key] = val; add(new_term)`. */
  function AddVariant(s: Store, name: string, a: Attribute, v: Value): Store
    requires Fits(a, v)
  {
    Store(s.terms + [SetItem(Blank(s.nextId, name), a, v)], s.synonyms, s.similars, s.nextId + 1)
  }

  /** `term[key] = val` on the stored term at position `i`. */
  function SetInPlace(s: Store, i: nat, a: Attribute, v: Value): Store
    requires i < |s.terms| && Fits(a, v)
  {
    s.(terms := s.terms[i := SetItem(s.terms[i], a, v)])
  }

  /** One item of `update`: when the term already holds a different truthy value
      under `a`, the term is left as it is and a new term with the same name and
      only `v` set is added; otherwise `v` is written in place. */
  function UpdateKey(s: Store, i: nat, a: Attribute, v: Value): (r: Store)
    requires i < |s.terms| && Fits(a, v)
    ensures r.synonyms == s.synonyms && r.similars == s.similars
    ensures var stored := GetItem(s.terms[i], a);
      if Truthy(stored) && stored != v then
        && |r.terms| == |s.terms| + 1 && r.terms[..|s.terms|] == s.terms
        && Carries(r.terms[|s.terms|], s.nextId, s.terms[i].name, a, v)
        && r.nextId == s.nextId + 1
      else
        && |r.terms| == |s.terms| && r.nextId == s.nextId
        && r.terms[i].id == s.terms[i].id && r.terms[i].name == s.terms[i].name
        && GetItem(r.terms[i], a) == v
        && (forall b :: b != a ==> GetItem(r.terms[i], b) == GetItem(s.terms[i], b))
        && (forall j :: 0 <= j < |s.terms| && j != i ==> r.terms[j] == s.terms[j])
  {
    var stored := GetItem(s.terms[i], a);
    if Truthy(stored) && stored != v then
      var r := AddVariant(s, s.terms[i].name, a, v);
      assert r.terms[..|s.terms|] == s.terms;
      r
    else SetInPlace(s, i, a, v)
  }

  lemma UpdateKeyValid(s: Store, i: nat, a: Attribute, v: Value)
    requires Valid(s) && i < |s.terms| && Fits(a, v)
    ensures Valid(UpdateKey(s, i, a, v))
    ensures Ids(s) <= Ids(UpdateKey(s, i, a, v))
  {
    var stored := GetItem(s.terms[i], a);
    if Truthy(stored) && stored != v {
      var t := SetItem(Blank(s.nextId, s.terms[i].name), a, v);
      assert UpdateKey(s, i, a, v) == AddVariant(s, s.terms[i].name, a, v);
      AppendValid(s, t);
    } else {
      var r := SetInPlace(s, i, a, v);
      assert UpdateKey(s, i, a, v) == r;
      SameIds(s, r);
    }
  }

  /** Appending a term with the next id, and advancing the sequence, keeps the store valid. */
  lemma AppendValid(s: Store, t: Term)
    requires Valid(s) && t.id == s.nextId
    ensures var r := Store(s.terms + [t], s.synonyms, s.similars, s.nextId + 1);
      Valid(r) && Ids(r) == Ids(s) + {t.id}
  {
    var r := Store(s.terms + [t], s.synonyms, s.similars, s.nextId + 1);
    var n := |s.terms|;
    assert forall j :: 0 <= j < n ==> r.terms[j] == s.terms[j];
    assert r.terms[n] == t;
    forall i, j | 0 <= i < j < |r.terms|
      ensures r.terms[i].id != r.terms[j].id
    {
      if j == n {
        assert r.terms[i].id < s.nextId;
      }
    }
    AppendIds(s, r, t);
    PairsOkGrow(s.synonyms, Ids(s), Ids(r));
    PairsOkGrow(s.similars, Ids(s), Ids(r));
  }

  /** Appending a term adds exactly its id. */
  lemma AppendIds(s: Store, r: Store, t: Term)
    requires r.terms == s.terms + [t]
    ensures Ids(r) == Ids(s) + {t.id}
  {
    var n := |s.terms|;
    forall x | x in Ids(r) ensures x in Ids(s) + {t.id} {
      var j :| 0 <= j < |r.terms| && r.terms[j].id == x;
      if j < n {
        assert r.terms[j] == s.terms[j];
        assert s.terms[j] in s.terms;
      }
    }
    forall x | x in Ids(s) + {t.id} ensures x in Ids(r) {
      if x == t.id {
        assert r.terms[n] in r.terms;
      } else {
        var j :| 0 <= j < n && s.terms[j].id == x;
        assert r.terms[j] == s.terms[j];
        assert r.terms[j] in r.terms;
      }
    }
  }

  lemma PairsOkGrow(rel: Relation, x: set<nat>, y: set<nat>)
    requires PairsOk(rel, x) && x <= y
    ensures PairsOk(rel, y)
  {
  }

  /** A store whose terms have the same ids, position by position, and the same
      tables and sequence, is valid when the original is, with the same ids. */
  lemma SameIds(s: Store, r: Store)
    requires Valid(s)
    requires |r.terms| == |s.terms| && r.nextId == s.nextId
    requires r.synonyms == s.synonyms && r.similars == s.similars
    requires forall j :: 0 <= j < |s.terms| ==> r.terms[j].id == s.terms[j].id
    ensures Valid(r) && Ids(r) == Ids(s)
  {
    forall x | x in Ids(s) ensures x in Ids(r) {
      var j :| 0 <= j < |s.terms| && s.terms[j].id == x;
      assert r.terms[j] in r.terms;
    }
    forall x | x in Ids(r) ensures x in Ids(s) {
      var j :| 0 <= j < |r.terms| && r.terms[j].id == x;
      assert s.terms[j] in s.terms;
    }
  }

  predicate HasInvalid(changes: seq<(Attribute, string)>)
  {
    exists k :: 0 <= k < |changes| && ColumnValue(changes[k].0, changes[k].1).None?
  }

  /** The loop of `update` over the items of the dictionary, in order, on the term
      at position `i`. A string that names no enum member makes the commit fail. */
  function UpdateFrom(s: Store, i: nat, changes: seq<(Attribute, string)>): (r: Result<Store, StoreError>)
    requires i < |s.terms|
    ensures r.Failure? <==> HasInvalid(changes)
    ensures r.Success? ==>
      && |r.value.terms| >= |s.terms|
      && r.value.synonyms == s.synonyms && r.value.similars == s.similars
      && r.value.terms[i].id == s.terms[i].id && r.value.terms[i].name == s.terms[i].name
      && (forall j :: 0 <= j < |s.terms| && j != i ==> r.value.terms[j] == s.terms[j])
      && (forall k :: |s.terms| <= k < |r.value.terms| ==> r.value.terms[k].name == s.terms[i].name)
    decreases |changes|
  {
    if |changes| == 0 then Success(s)
    else
      match ColumnValue(changes[0].0, changes[0].1)
      case None => Failure(InvalidValue)
      case Some(v) =>
        var s1 := UpdateKey(s, i, changes[0].0, v);
        var r := UpdateFrom(s1, i, changes[1..]);
        assert HasInvalid(changes) <==> HasInvalid(changes[1..]) by {
          if HasInvalid(changes[1..]) {
            var k :| 0 <= k < |changes[1..]| && ColumnValue(changes[1..][k].0, changes[1..][k].1).None?;
            assert changes[k + 1] == changes[1..][k];
          }
          if HasInvalid(changes) {
            var k :| 0 <= k < |changes| && ColumnValue(changes[k].0, changes[k].1).None?;
            assert k > 0;
            assert changes[1..][k - 1] == changes[k];
          }
        }
        r
  }

  /** `update(term_id, dictionary)`: applies the items in order to the term with
      that id; fails when there is no such term (and the dictionary is not empty)
      or when a value does not fit its column. Only that term may change, the only
      terms added carry its name, and the pair tables are untouched. */
  function Update(s: Store, id: nat, changes: seq<(Attribute, string)>): (r: Result<Store, StoreError>)
    ensures r.Failure? <==> |changes| > 0 && (id !in Ids(s) || HasInvalid(changes))
    ensures r.Success? ==>
      && r.value.synonyms == s.synonyms && r.value.similars == s.similars
      && |r.value.terms| >= |s.terms|
      && (forall j :: 0 <= j < |s.terms| && s.terms[j].id != id ==> r.value.terms[j] == s.terms[j])
      && (forall j :: 0 <= j < |s.terms| ==> r.value.terms[j].id == s.terms[j].id && r.value.terms[j].name == s.terms[j].name)
      && (forall k :: |s.terms| <= k < |r.value.terms| ==> r.value.terms[k].name in set t | t in s.terms && t.id == id :: t.name)
  {
    match IndexOf(s.terms, id)
    case None => if |changes| == 0 then Success(s) else Failure(NoSuchTerm)
    case Some(i) =>
      var r := UpdateFrom(s, i, changes);
      assert id in Ids(s) by { assert s.terms[i] in s.terms; }
      assert s.terms[i] in s.terms;
      r
  }

  lemma {:induction false} UpdateFromValid(s: Store, i: nat, changes: seq<(Attribute, string)>)
    requires Valid(s) && i < |s.terms|
    requires UpdateFrom(s, i, changes).Success?
    ensures Valid(UpdateFrom(s, i, changes).value)
    ensures Ids(s) <= Ids(UpdateFrom(s, i, changes).value)
    decreases |changes|
  {
    if |changes| > 0 {
      var v := ColumnValue(changes[0].0, changes[0].1).value;
      UpdateKeyValid(s, i, changes[0].0, v);
      UpdateFromValid(UpdateKey(s, i, changes[0].0, v), i, changes[1..]);
    }
  }

  lemma UpdateValid(s: Store, id: nat, changes: seq<(Attribute, string)>)
    requires Valid(s) && Update(s, id, changes).Success?
    ensures Valid(Update(s, id, changes).value)
    ensures Ids(s) <= Ids(Update(s, id, changes).value)
  {
    match IndexOf(s.terms, id)
    case None =>
    case Some(i) => UpdateFromValid(s, i, changes);
  }

  predicate DistinctKeys(changes: seq<(Attribute, string)>)
  {
    forall j, k :: 0 <= j < k < |changes| ==> changes[j].0 != changes[k].0
  }

  /** Every item is written in place: the term holds nothing truthy under it yet,
      or already holds that very value. */
  predicate WritesInPlace(t: Term, changes: seq<(Attribute, string)>)
  {
    forall k :: 0 <= k < |changes| ==>
      && ColumnValue(changes[k].0, changes[k].1).Some?
      && var stored := GetItem(t, changes[k].0);
         !Truthy(stored) || stored == ColumnValue(changes[k].0, changes[k].1).value
  }

  lemma {:induction false} UpdateFromInPlace(s: Store, i: nat, changes: seq<(Attribute, string)>)
    requires i < |s.terms|
    requires DistinctKeys(changes)
    requires WritesInPlace(s.terms[i], changes)
    ensures UpdateFrom(s, i, changes).Success?
    ensures |UpdateFrom(s, i, changes).value.terms| == |s.terms|
    ensures UpdateFrom(s, i, changes).value.nextId == s.nextId
    decreases |changes|
  {
    if |changes| > 0 {
      var a := changes[0].0;
      var v := ColumnValue(a, changes[0].1).value;
      var s1 := UpdateKey(s, i, a, v);
      assert WritesInPlace(s1.terms[i], changes[1..]) by {
        forall k | 0 <= k < |changes[1..]|
          ensures ColumnValue(changes[1..][k].0, changes[1..][k].1).Some?
          ensures var stored := GetItem(s1.terms[i], changes[1..][k].0);
                  !Truthy(stored) || stored == ColumnValue(changes[1..][k].0, changes[1..][k].1).value
        {
          assert changes[1..][k] == changes[k + 1];
          assert changes[k + 1].0 != a;
        }
      }
      assert DistinctKeys(changes[1..]) by {
        forall j, k | 0 <= j < k < |changes[1..]|
          ensures changes[1..][j].0 != changes[1..][k].0
        {
          assert changes[1..][j] == changes[j + 1] && changes[1..][k] == changes[k + 1];
        }
      }
      UpdateFromInPlace(s1, i, changes[1..]);
    }
  }

  /** Where `update` leaves the value `v` of item `a`: on the term at position `i`
      itself, or on a term appended at position `from` or later that carries its name. */
  predicate Written(ts: seq<Term>, i: nat, from: nat, a: Attribute, v: Value)
    requires i < |ts|
  {
    || GetItem(ts[i], a) == v
    || exists j :: from <= j < |ts| && ts[j].name == ts[i].name && GetItem(ts[j], a) == v
  }

  /** The loop leaves an item that no key of the dictionary names as it was. */
  lemma {:induction false} UpdateFromOtherItem(s: Store, i: nat, changes: seq<(Attribute, string)>, a: Attribute)
    requires i < |s.terms|
    requires forall k :: 0 <= k < |changes| ==> changes[k].0 != a
    requires UpdateFrom(s, i, changes).Success?
    ensures GetItem(UpdateFrom(s, i, changes).value.terms[i], a) == GetItem(s.terms[i], a)
    decreases |changes|
  {
    if |changes| > 0 {
      var b := changes[0].0;
      var v := ColumnValue(b, changes[0].1).value;
      var s1 := UpdateKey(s, i, b, v);
      var stored := GetItem(s.terms[i], b);
      if Truthy(stored) && stored != v {
        assert s1.terms[i] == s1.terms[..|s.terms|][i];
      }
      assert GetItem(s1.terms[i], a) == GetItem(s.terms[i], a);
      var rest := changes[1..];
      forall k | 0 <= k < |rest|
        ensures rest[k].0 != a
      {
        assert rest[k] == changes[k + 1];
      }
      UpdateFromOtherItem(s1, i, rest, a);
    }
  }

  /** Every item of a dictionary (distinct keys, as a dictionary has) is stored:
      its value is read back from the term itself, or from a term the loop
      appended with the term's name. */
  lemma {:induction false} UpdateFromStores(s: Store, i: nat, changes: seq<(Attribute, string)>)
    requires i < |s.terms| && DistinctKeys(changes)
    requires UpdateFrom(s, i, changes).Success?
    ensures forall k :: 0 <= k < |changes| ==>
      && ColumnValue(changes[k].0, changes[k].1).Some?
      && Written(UpdateFrom(s, i, changes).value.terms, i, |s.terms|, changes[k].0, ColumnValue(changes[k].0, changes[k].1).value)
    decreases |changes|
  {
    if |changes| > 0 {
      var a := changes[0].0;
      var v := ColumnValue(a, changes[0].1).value;
      var s1 := UpdateKey(s, i, a, v);
      var rest := changes[1..];
      var n := |s.terms|;
      assert DistinctKeys(rest) by {
        forall j, k | 0 <= j < k < |rest|
          ensures rest[j].0 != rest[k].0
        {
          assert rest[j] == changes[j + 1] && rest[k] == changes[k + 1];
        }
      }
      forall k | 0 <= k < |rest|
        ensures rest[k].0 != a
      {
        assert rest[k] == changes[k + 1];
      }
      UpdateFromStores(s1, i, rest);
      UpdateFromOtherItem(s1, i, rest, a);
      var r := UpdateFrom(s1, i, rest).value;
      assert UpdateFrom(s, i, changes).value == r;
      var stored := GetItem(s.terms[i], a);
      if Truthy(stored) && stored != v {
        assert s1.terms[i] == s1.terms[..n][i];
        assert r.terms[n] == s1.terms[n];
        assert Written(r.terms, i, n, a, v);
      }
      forall k | 0 < k < |changes|
        ensures ColumnValue(changes[k].0, changes[k].1).Some?
        ensures Written(r.terms, i, n, changes[k].0, ColumnValue(changes[k].0, changes[k].1).value)
      {
        assert changes[k] == rest[k - 1];
        var w := ColumnValue(changes[k].0, changes[k].1).value;
        if GetItem(r.terms[i], changes[k].0) != w {
          var j :| |s1.terms| <= j < |r.terms| && r.terms[j].name == r.terms[i].name && GetItem(r.terms[j], changes[k].0) == w;
          assert n <= j;
        }
      }
    }
  }

  /** `update` stores every item of its dictionary on the term with that id, or on
      a term it appends with that term's name. */
  lemma UpdateStores(s: Store, id: nat, changes: seq<(Attribute, string)>)
    requires DistinctKeys(changes)
    requires Update(s, id, changes).Success?
    ensures |changes| > 0 ==>
      && IndexOf(s.terms, id).Some?
      && forall k :: 0 <= k < |changes| ==>
           && ColumnValue(changes[k].0, changes[k].1).Some?
           && Written(Update(s, id, changes).value.terms, IndexOf(s.terms, id).value, |s.terms|,
                      changes[k].0, ColumnValue(changes[k].0, changes[k].1).value)
  {
    if |changes| > 0 {
      var i := IndexOf(s.terms, id).value;
      UpdateFromStores(s, i, changes);
    }
  }

  /** A one-item `update` of a stored term is one `UpdateKey` step: the item is
      written in place, or a term of the same name is appended that carries it. */
  lemma UpdateOneKey(s: Store, id: nat, a: Attribute, val: string)
    requires id in Ids(s) && ColumnValue(a, val).Some?
    ensures IndexOf(s.terms, id).Some?
    ensures Update(s, id, [(a, val)]) == Success(UpdateKey(s, IndexOf(s.terms, id).value, a, ColumnValue(a, val).value))
  {
    assert !HasInvalid([(a, val)]);
    var i := IndexOf(s.terms, id).value;
    var s1 := UpdateKey(s, i, a, ColumnValue(a, val).value);
    assert [(a, val)][1..] == [];
    assert UpdateFrom(s1, i, []) == Success(s1);
  }

  /** `update` with values that equal what is stored, or onto unset or empty
      items, adds no term. */
  lemma UpdateInPlaceAddsNoTerm(s: Store, id: nat, changes: seq<(Attribute, string)>)
    requires DistinctKeys(changes)
    requires Get(s, id).Some? && WritesInPlace(Get(s, id).value, changes)
    ensures Update(s, id, changes).Success?
    ensures |Update(s, id, changes).value.terms| == |s.terms|
  {
    var i := IndexOf(s.terms, id).value;
    UpdateFromInPlace(s, i, changes);
  }

  /** A single stored term has a unique name. */
  lemma SingleNameUnique(t: Term)
    ensures UniqueNames([t])
  {
    forall n ensures CountNamed([t], n) <= 1 {
      assert [t][..0] == [];
    }
  }

  /** The two-branch policy of `update` can leave two terms with one name. */
  lemma UpdateCanDuplicateNames()
    ensures var s := Store([Term(1, "light", None, Some("a lamp"), None, None, None)], {}, {}, 2);
      && UniqueNames(s.terms)
      && Update(s, 1, [(Description, "a beam")]).Success?
      && CountNamed(Update(s, 1, [(Description, "a beam")]).value.terms, "light") == 2
  {
    var t1 := Term(1, "light", None, Some("a lamp"), None, None, None);
    var t2 := Term(2, "light", None, Some("a beam"), None, None, None);
    var s := Store([t1], {}, {}, 2);
    SingleNameUnique(t1);
    assert IndexOf(s.terms, 1) == Some(0);
    assert ColumnValue(Description, "a beam") == Some(Str("a beam"));
    var s1 := AddVariant(s, "light", Description, Str("a beam"));
    assert UpdateKey(s, 0, Description, Str("a beam")) == s1;
    assert [(Description, "a beam")][1..] == [];
    assert Update(s, 1, [(Description, "a beam")]) == Success(s1);
    assert s1.terms == [t1] + [t2];
    NamedAppend([t1], [t2], "light");
    assert [t1][..0] == [] && [t2][..0] == [];
    assert Named([t1], "light") == [t1];
    assert Named([t2], "light") == [t2];
  }

  /** Python's `term[key] != val` when `val` is the string the caller passed:
      an enum member never equals a string, so a stored tag always differs. */
  predicate DiffersAsWritten(stored: Value, val: string)
  {
    match stored
    case Null => true
    case Tag(_) => true
    case Str(x) => x != val
  }

  /** `update` with a one-item dictionary, comparing as the source does. On the
      text columns this is exactly `Update`; only the enum column differs. */
  function UpdateAsWritten(s: Store, id: nat, a: Attribute, val: string): Result<Store, StoreError>
  {
    match IndexOf(s.terms, id)
    case None => Failure(NoSuchTerm)
    case Some(i) =>
      match ColumnValue(a, val)
      case None => Failure(InvalidValue)
      case Some(v) =>
        var stored := GetItem(s.terms[i], a);
        if Truthy(stored) && DiffersAsWritten(stored, val) then Success(AddVariant(s, s.terms[i].name, a, v))
        else Success(SetInPlace(s, i, a, v))
  }

  /** On the text columns the comparison as written is the comparison of values,
      so there `UpdateAsWritten` is exactly `Update` with a one-item dictionary. */
  lemma UpdateAsWrittenOnText(s: Store, id: nat, a: Attribute, val: string)
    requires a != PosTag
    ensures UpdateAsWritten(s, id, a, val) == Update(s, id, [(a, val)])
  {
    match IndexOf(s.terms, id)
    case None =>
    case Some(i) =>
      var v := Str(val);
      assert ColumnValue(a, val) == Some(v);
      var stored := GetItem(s.terms[i], a);
      assert DiffersAsWritten(stored, val) <==> stored != v;
      assert [(a, val)][1..] == [];
      assert UpdateFrom(s, i, [(a, val)]) == UpdateFrom(UpdateKey(s, i, a, v), i, []);
  }

  /** Choosing the tag a term already has: as written this inserts a second term
      with that name, while comparing values writes the same tag in place. */
  lemma PosTagResubmitAsWritten()
    ensures var s := Store([Term(1, "light", Some(Noun), None, None, None, None)], {}, {}, 2);
      && |UpdateAsWritten(s, 1, PosTag, "noun").value.terms| == 2
      && Update(s, 1, [(PosTag, "noun")]) == Success(s)
  {
    var s := Store([Term(1, "light", Some(Noun), None, None, None, None)], {}, {}, 2);
    assert [(PosTag, "noun")][1..] == [];
    assert GetItem(s.terms[0], PosTag) == Tag(Noun);
    assert SetItem(s.terms[0], PosTag, Tag(Noun)) == s.terms[0];
    assert s.terms[0 := s.terms[0]] == s.terms;
  }

  // ----- synonyms and similar words -----

  /** Both directions of one link, in the table `table` names. */
  function Link(s: Store, a: nat, b: nat, table: Table): Store
  {
    match table
    case Synonyms => s.(synonyms := s.synonyms + {(a, b), (b, a)})
    case Similars => s.(similars := s.similars + {(a, b), (b, a)})
    case Other => s
  }

  /** The pairs linking `a` with each of `ids`, both ways. */
  function Sym(a: nat, ids: set<nat>): Relation
  {
    (set b | b in ids :: (a, b)) + (set b | b in ids :: (b, a))
  }

  /** The pairs a call adds to the table `which` when `table` was requested. */
  function Added(table: Table, which: Table, a: nat, ids: set<nat>): Relation
  {
    if table == which then Sym(a, ids) else {}
  }

  lemma AddedUnion(table: Table, which: Table, a: nat, x: set<nat>, y: set<nat>)
    ensures Added(table, which, a, x) + Added(table, which, a, y) == Added(table, which, a, x + y)
  {
  }

  lemma LinkAdds(s: Store, a: nat, b: nat, table: Table)
    ensures Link(s, a, b, table).terms == s.terms && Link(s, a, b, table).nextId == s.nextId
    ensures Link(s, a, b, table).synonyms == s.synonyms + Added(table, Synonyms, a, {b})
    ensures Link(s, a, b, table).similars == s.similars + Added(table, Similars, a, {b})
  {
    assert Sym(a, {b}) == {(a, b), (b, a)};
  }

  lemma LinkValid(s: Store, a: nat, b: nat, table: Table)
    requires Valid(s) && a in Ids(s) && b in Ids(s)
    ensures Valid(Link(s, a, b, table))
    ensures Ids(Link(s, a, b, table)) == Ids(s)
  {
    var r := Link(s, a, b, table);
    assert r.terms == s.terms && r.nextId == s.nextId;
    assert Ids(r) == Ids(s);
    var added: Relation := {(a, b), (b, a)};
    assert PairsOk(added, Ids(s));
    match table
    case Synonyms => PairsOkUnion(s.synonyms, added, Ids(s));
    case Similars => PairsOkUnion(s.similars, added, Ids(s));
    case Other =>
  }

  lemma PairsOkUnion(x: Relation, y: Relation, ids: set<nat>)
    requires PairsOk(x, ids) && PairsOk(y, ids)
    ensures PairsOk(x + y, ids)
  {
  }

  function Elems(ids: seq<nat>): set<nat>
  {
    set x | x in ids
  }

  function LowerAll(words: seq<string>): (r: seq<string>)
    ensures |r| == |words|
    ensures forall k :: 0 <= k < |words| ==> r[k] == Lower(words[k])
  {
    seq(|words|, k requires 0 <= k < |words| => Lower(words[k]))
  }

  /** Ids of the single match of every word that has exactly one match in `ts`. */
  function MatchedIds(ts: seq<Term>, ws: seq<string>): set<nat>
  {
    if |ws| == 0 then {}
    else
      var found := Named(ts, ws[0]);
      (if |found| == 1 then {found[0].id} else {}) + MatchedIds(ts, ws[1..])
  }

  /** All matches of every word that has more than one match in `ts`, word by word. */
  function Candidates(ts: seq<Term>, ws: seq<string>): seq<Term>
  {
    if |ws| == 0 then []
    else
      var found := Named(ts, ws[0]);
      (if |found| > 1 then found else []) + Candidates(ts, ws[1..])
  }

  /** One (lower-cased) word of the loop: created and flushed when no term has it,
      then its matches are queried; several matches are set aside for
      clarification, a single match is linked with the term `termId` both ways,
      which fails when that term was not found. */
  function ResolveWord(s: Store, termId: nat, found: bool, w: string, table: Table): Result<(Store, seq<Term>), StoreError>
  {
    var s1 := if HasName(s.terms, w) then s else Insert(s, w);
    assert HasName(s1.terms, w) by {
      if !HasName(s.terms, w) {
        assert Blank(s.nextId, w) in s1.terms;
      }
    }
    var matches := Named(s1.terms, w);
    if |matches| > 1 then Success((s1, matches))
    else if table == Other then Success((s1, []))
    else if !found then Failure(NoSuchTerm)
    else Success((Link(s1, termId, matches[0].id, table), []))
  }

  /** The loop over the words, collecting the clarification candidates. */
  function ResolveWords(s: Store, termId: nat, found: bool, ws: seq<string>, table: Table, cands: seq<Term>)
    : Result<(Store, seq<Term>), StoreError>
    decreases |ws|
  {
    if |ws| == 0 then Success((s, cands))
    else
      match ResolveWord(s, termId, found, ws[0], table)
      case Failure(e) => Failure(e)
      case Success(step) => ResolveWords(step.0, termId, found, ws[1..], table, cands + step.1)
  }

  /** The clarification loop: links the term `termId` with each chosen id in both
      directions; a missing term on either side fails. */
  function LinkChosen(s: Store, termId: nat, found: bool, ids: seq<nat>, table: Table): Result<Store, StoreError>
    decreases |ids|
  {
    if |ids| == 0 then Success(s)
    else if table == Other then LinkChosen(s, termId, found, ids[1..], table)
    else if !found || ids[0] !in Ids(s) then Failure(NoSuchTerm)
    else LinkChosen(Link(s, termId, ids[0], table), termId, found, ids[1..], table)
  }

  /** `add_synonyms_similars(term_id, words, table, clarification_ids)`. A
      non-empty `clarification_ids` takes the clarification path; otherwise the
      words are lower-cased and resolved. The second component is the list of
      candidates awaiting clarification, or `None` when there are none. */
  function AddSynonymsSimilars(s: Store, termId: nat, words: seq<string>, table: Table, clarificationIds: seq<nat>)
    : Result<(Store, Option<seq<Term>>), StoreError>
  {
    var found := termId in Ids(s);
    if |clarificationIds| > 0 then
      match LinkChosen(s, termId, found, clarificationIds, table)
      case Failure(e) => Failure(e)
      case Success(s') => Success((s', None))
    else
      match ResolveWords(s, termId, found, LowerAll(words), table, [])
      case Failure(e) => Failure(e)
      case Success(res) => Success((res.0, if |res.1| == 0 then None else Some(res.1)))
  }

  lemma ResolveWordEffect(s: Store, termId: nat, found: bool, w: string, table: Table)
    requires ResolveWord(s, termId, found, w, table).Success?
    ensures var (s', c) := ResolveWord(s, termId, found, w, table).value;
      var matches := Named(s'.terms, w);
      && Prefix(s.terms, s'.terms)
      && HasName(s'.terms, w)
      && (forall n :: CountNamed(s'.terms, n) == CountNamed(s.terms, n) + (if n == w && !HasName(s.terms, n) then 1 else 0))
      && c == (if |matches| > 1 then matches else [])
      && s'.synonyms == s.synonyms + Added(table, Synonyms, termId, if |matches| == 1 then {matches[0].id} else {})
      && s'.similars == s.similars + Added(table, Similars, termId, if |matches| == 1 then {matches[0].id} else {})
  {
    var s1 := if HasName(s.terms, w) then s else Insert(s, w);
    if !HasName(s.terms, w) {
      InsertCounts(s, w);
    }
    var matches := Named(s1.terms, w);
    if |matches| == 1 {
      LinkAdds(s1, termId, matches[0].id, table);
    } else {
      AddedNone(table, Synonyms, termId);
      AddedNone(table, Similars, termId);
    }
  }

  /** Linking with no ids adds nothing. */
  lemma AddedNone(table: Table, which: Table, a: nat)
    ensures Added(table, which, a, {}) == {}
  {
    assert Sym(a, {}) == {};
  }

  lemma ResolveWordValid(s: Store, termId: nat, found: bool, w: string, table: Table)
    requires Valid(s)
    requires found ==> termId in Ids(s)
    requires ResolveWord(s, termId, found, w, table).Success?
    ensures Valid(ResolveWord(s, termId, found, w, table).value.0)
    ensures Ids(s) <= Ids(ResolveWord(s, termId, found, w, table).value.0)
  {
    var s1 := if HasName(s.terms, w) then s else Insert(s, w);
    if !HasName(s.terms, w) {
      InsertValid(s, w);
    }
    var matches := Named(s1.terms, w);
    if |matches| == 1 && table != Other && found {
      assert matches[0] in s1.terms;
      LinkValid(s1, termId, matches[0].id, table);
    }
  }

  /** One turn of the loop. */
  lemma ResolveWordsUnfold(s: Store, termId: nat, found: bool, ws: seq<string>, table: Table, cands: seq<Term>)
    requires |ws| > 0
    requires ResolveWords(s, termId, found, ws, table, cands).Success?
    ensures ResolveWord(s, termId, found, ws[0], table).Success?
    ensures var step := ResolveWord(s, termId, found, ws[0], table).value;
      ResolveWords(s, termId, found, ws, table, cands) == ResolveWords(step.0, termId, found, ws[1..], table, cands + step.1)
  {
  }

  lemma {:induction false} ResolveWordsTerms(s: Store, termId: nat, found: bool, ws: seq<string>, table: Table, cands: seq<Term>)
    requires ResolveWords(s, termId, found, ws, table, cands).Success?
    ensures var s' := ResolveWords(s, termId, found, ws, table, cands).value.0;
      && Prefix(s.terms, s'.terms)
      && (forall n :: CountNamed(s'.terms, n) == CountNamed(s.terms, n) + (if n in ws && !HasName(s.terms, n) then 1 else 0))
    decreases |ws|
  {
    if |ws| > 0 {
      var w := ws[0];
      ResolveWordsUnfold(s, termId, found, ws, table, cands);
      var step := ResolveWord(s, termId, found, w, table).value;
      var s1 := step.0;
      ResolveWordEffect(s, termId, found, w, table);
      ResolveWordsTerms(s1, termId, found, ws[1..], table, cands + step.1);
      var s' := ResolveWords(s1, termId, found, ws[1..], table, cands + step.1).value.0;
      PrefixTransitive(s.terms, s1.terms, s'.terms);
      forall n
        ensures CountNamed(s'.terms, n) == CountNamed(s.terms, n) + (if n in ws && !HasName(s.terms, n) then 1 else 0)
      {
        assert n in ws <==> n == w || n in ws[1..];
        if n != w {
          assert CountNamed(s1.terms, n) == CountNamed(s.terms, n);
          assert HasName(s1.terms, n) <==> HasName(s.terms, n);
        }
      }
    }
  }

  /** Later turns of the loop leave the matches of a name already stored as they were. */
  lemma ResolveWordsKeepsMatches(s: Store, termId: nat, found: bool, ws: seq<string>, table: Table, cands: seq<Term>, w: string)
    requires ResolveWords(s, termId, found, ws, table, cands).Success?
    requires HasName(s.terms, w)
    ensures Named(ResolveWords(s, termId, found, ws, table, cands).value.0.terms, w) == Named(s.terms, w)
  {
    ResolveWordsTerms(s, termId, found, ws, table, cands);
    NamedOfExtension(s.terms, ResolveWords(s, termId, found, ws, table, cands).value.0.terms, w);
  }

  lemma ConcatAssoc(a: seq<Term>, b: seq<Term>, c: seq<Term>)
    ensures a + b + c == a + (b + c)
  {
  }

  lemma {:induction false} ResolveWordsCandidates(s: Store, termId: nat, found: bool, ws: seq<string>, table: Table, cands: seq<Term>)
    requires ResolveWords(s, termId, found, ws, table, cands).Success?
    ensures var r := ResolveWords(s, termId, found, ws, table, cands).value;
      r.1 == cands + Candidates(r.0.terms, ws)
    decreases |ws|
  {
    if |ws| > 0 {
      var w := ws[0];
      var rest := ws[1..];
      ResolveWordsUnfold(s, termId, found, ws, table, cands);
      var step := ResolveWord(s, termId, found, w, table).value;
      ResolveWordEffect(s, termId, found, w, table);
      ResolveWordsCandidates(step.0, termId, found, rest, table, cands + step.1);
      ResolveWordsKeepsMatches(step.0, termId, found, rest, table, cands + step.1, w);
      var s' := ResolveWords(step.0, termId, found, rest, table, cands + step.1).value.0;
      var matches := Named(s'.terms, w);
      var x := if |matches| > 1 then matches else [];
      assert Candidates(s'.terms, ws) == x + Candidates(s'.terms, rest);
      ConcatAssoc(cands, x, Candidates(s'.terms, rest));
    }
  }

  lemma UnionAssoc(a: Relation, b: Relation, c: Relation)
    ensures a + b + c == a + (b + c)
  {
  }

  lemma {:induction false} ResolveWordsLinks(s: Store, termId: nat, found: bool, ws: seq<string>, table: Table, cands: seq<Term>)
    requires ResolveWords(s, termId, found, ws, table, cands).Success?
    ensures var s' := ResolveWords(s, termId, found, ws, table, cands).value.0;
      && s'.synonyms == s.synonyms + Added(table, Synonyms, termId, MatchedIds(s'.terms, ws))
      && s'.similars == s.similars + Added(table, Similars, termId, MatchedIds(s'.terms, ws))
    decreases |ws|
  {
    if |ws| > 0 {
      var w := ws[0];
      var rest := ws[1..];
      ResolveWordsUnfold(s, termId, found, ws, table, cands);
      var step := ResolveWord(s, termId, found, w, table).value;
      ResolveWordEffect(s, termId, found, w, table);
      ResolveWordsLinks(step.0, termId, found, rest, table, cands + step.1);
      ResolveWordsKeepsMatches(step.0, termId, found, rest, table, cands + step.1, w);
      var s' := ResolveWords(step.0, termId, found, rest, table, cands + step.1).value.0;
      AddedWords(s.synonyms, step.0.synonyms, s'.synonyms, table, Synonyms, termId, s'.terms, ws);
      AddedWords(s.similars, step.0.similars, s'.similars, table, Similars, termId, s'.terms, ws);
    }
  }

  /** The links of the first word and those of the rest are the links of all the words. */
  lemma AddedWords(r0: Relation, r1: Relation, r2: Relation, table: Table, which: Table, a: nat, ts: seq<Term>, ws: seq<string>)
    requires |ws| > 0
    requires var matches := Named(ts, ws[0]);
      r1 == r0 + Added(table, which, a, if |matches| == 1 then {matches[0].id} else {})
    requires r2 == r1 + Added(table, which, a, MatchedIds(ts, ws[1..]))
    ensures r2 == r0 + Added(table, which, a, MatchedIds(ts, ws))
  {
    var matches := Named(ts, ws[0]);
    AddedChain(r0, r1, r2, table, which, a, if |matches| == 1 then {matches[0].id} else {}, MatchedIds(ts, ws[1..]));
  }

  /** Two rounds of links add the links of both id sets. */
  lemma AddedChain(r0: Relation, r1: Relation, r2: Relation, table: Table, which: Table, a: nat, x: set<nat>, y: set<nat>)
    requires r1 == r0 + Added(table, which, a, x)
    requires r2 == r1 + Added(table, which, a, y)
    ensures r2 == r0 + Added(table, which, a, x + y)
  {
    AddedUnion(table, which, a, x, y);
    UnionAssoc(r0, Added(table, which, a, x), Added(table, which, a, y));
  }

  lemma {:induction false} ResolveWordsValid(s: Store, termId: nat, found: bool, ws: seq<string>, table: Table, cands: seq<Term>)
    requires Valid(s)
    requires found ==> termId in Ids(s)
    requires ResolveWords(s, termId, found, ws, table, cands).Success?
    ensures Valid(ResolveWords(s, termId, found, ws, table, cands).value.0)
    ensures Ids(s) <= Ids(ResolveWords(s, termId, found, ws, table, cands).value.0)
    decreases |ws|
  {
    if |ws| > 0 {
      var step := ResolveWord(s, termId, found, ws[0], table).value;
      ResolveWordValid(s, termId, found, ws[0], table);
      ResolveWordsValid(step.0, termId, found, ws[1..], table, cands + step.1);
    }
  }

  lemma {:induction false} ResolveWordsSucceeds(s: Store, termId: nat, found: bool, ws: seq<string>, table: Table, cands: seq<Term>)
    requires found || table == Other
    ensures ResolveWords(s, termId, found, ws, table, cands).Success?
    decreases |ws|
  {
    if |ws| > 0 {
      var step := ResolveWord(s, termId, found, ws[0], table).value;
      ResolveWordsSucceeds(step.0, termId, found, ws[1..], table, cands + step.1);
    }
  }

  lemma {:induction false} CandidatesEmpty(ts: seq<Term>, ws: seq<string>)
    ensures |Candidates(ts, ws)| == 0 <==> forall w :: w in ws ==> CountNamed(ts, w) <= 1
    decreases |ws|
  {
    if |ws| > 0 {
      CandidatesEmpty(ts, ws[1..]);
      var found := Named(ts, ws[0]);
      assert Candidates(ts, ws) == (if |found| > 1 then found else []) + Candidates(ts, ws[1..]);
      if forall w :: w in ws ==> CountNamed(ts, w) <= 1 {
        assert ws[0] in ws;
        forall w | w in ws[1..] ensures CountNamed(ts, w) <= 1 {
          assert w in ws;
        }
      } else {
        var w :| w in ws && CountNamed(ts, w) > 1;
        if w != ws[0] {
          assert w in ws[1..];
        }
      }
    }
  }

  lemma {:induction false} MatchedIdsHas(ts: seq<Term>, ws: seq<string>, k: nat)
    requires k < |ws| && |Named(ts, ws[k])| == 1
    ensures Named(ts, ws[k])[0].id in MatchedIds(ts, ws)
    decreases |ws|
  {
    if k == 0 {
      assert MatchedIds(ts, ws) == {Named(ts, ws[0])[0].id} + MatchedIds(ts, ws[1..]);
    } else {
      assert ws[1..][k - 1] == ws[k];
      MatchedIdsHas(ts, ws[1..], k - 1);
    }
  }

  /** Without clarification ids: the call succeeds whenever the term exists or the
      table name is not recognised. On success every lower-cased word names a
      term, a name is added exactly once when some word carries it and no term
      did (a repeated word is inserted once), and existing terms stay as they were. */
  lemma AddWordsCreatesEachWordOnce(s: Store, termId: nat, words: seq<string>, table: Table)
    requires termId in Ids(s) || table == Other
    ensures AddSynonymsSimilars(s, termId, words, table, []).Success?
    ensures var s' := AddSynonymsSimilars(s, termId, words, table, []).value.0;
      && Prefix(s.terms, s'.terms)
      && (forall k :: 0 <= k < |words| ==> HasName(s'.terms, Lower(words[k])))
      && (forall n :: CountNamed(s'.terms, n) == CountNamed(s.terms, n) + (if n in LowerAll(words) && !HasName(s.terms, n) then 1 else 0))
  {
    var ws := LowerAll(words);
    ResolveWordsSucceeds(s, termId, termId in Ids(s), ws, table, []);
    ResolveWordsTerms(s, termId, termId in Ids(s), ws, table, []);
    var s' := AddSynonymsSimilars(s, termId, words, table, []).value.0;
    forall k | 0 <= k < |words|
      ensures HasName(s'.terms, Lower(words[k]))
    {
      assert ws[k] in ws;
      if HasName(s.terms, ws[k]) {
        assert CountNamed(s.terms, ws[k]) > 0;
      }
      assert CountNamed(s'.terms, ws[k]) > 0;
    }
  }

  /** Without clarification ids, the recognised table gains exactly the two-way
      links between the term and the single match of every word that has one;
      the other table, and every table when the name is not recognised, gains nothing. */
  lemma AddWordsLinksUniqueMatches(s: Store, termId: nat, words: seq<string>, table: Table)
    requires AddSynonymsSimilars(s, termId, words, table, []).Success?
    ensures var s' := AddSynonymsSimilars(s, termId, words, table, []).value.0;
      && s'.synonyms == s.synonyms + Added(table, Synonyms, termId, MatchedIds(s'.terms, LowerAll(words)))
      && s'.similars == s.similars + Added(table, Similars, termId, MatchedIds(s'.terms, LowerAll(words)))
  {
    ResolveWordsLinks(s, termId, termId in Ids(s), LowerAll(words), table, []);
  }

  /** With a table name the store does not recognise, every word is created and
      nothing is linked. */
  lemma AddWordsOtherLinksNothing(s: Store, termId: nat, words: seq<string>)
    ensures AddSynonymsSimilars(s, termId, words, Other, []).Success?
    ensures var s' := AddSynonymsSimilars(s, termId, words, Other, []).value.0;
      && s'.synonyms == s.synonyms && s'.similars == s.similars
      && (forall k :: 0 <= k < |words| ==> HasName(s'.terms, Lower(words[k])))
  {
    AddWordsCreatesEachWordOnce(s, termId, words, Other);
    AddWordsLinksUniqueMatches(s, termId, words, Other);
  }

  /** A word with exactly one match is afterwards linked with the term in both
      directions, in the table requested. */
  lemma AddWordsLinkIsSymmetric(s: Store, termId: nat, words: seq<string>, table: Table, k: nat)
    requires termId in Ids(s) && table != Other && k < |words|
    ensures AddSynonymsSimilars(s, termId, words, table, []).Success?
    ensures var s' := AddSynonymsSimilars(s, termId, words, table, []).value.0;
      var m := Named(s'.terms, Lower(words[k]));
      var rel := if table == Synonyms then s'.synonyms else s'.similars;
      |m| == 1 ==> (termId, m[0].id) in rel && (m[0].id, termId) in rel
  {
    AddWordsCreatesEachWordOnce(s, termId, words, table);
    AddWordsLinksUniqueMatches(s, termId, words, table);
    var s' := AddSynonymsSimilars(s, termId, words, table, []).value.0;
    var ws := LowerAll(words);
    var m := Named(s'.terms, ws[k]);
    if |m| == 1 {
      MatchedIdsHas(s'.terms, ws, k);
    }
  }

  /** Without clarification ids, the candidates returned are all matches of every
      word that has more than one, in word order; the result is `None` exactly
      when no word has more than one match. */
  lemma AddWordsReturnsCandidates(s: Store, termId: nat, words: seq<string>, table: Table)
    requires AddSynonymsSimilars(s, termId, words, table, []).Success?
    ensures var (s', out) := AddSynonymsSimilars(s, termId, words, table, []).value;
      && (out.None? <==> forall k :: 0 <= k < |words| ==> CountNamed(s'.terms, Lower(words[k])) <= 1)
      && (out.Some? ==> out.value == Candidates(s'.terms, LowerAll(words)))
  {
    var ws := LowerAll(words);
    var r := ResolveWords(s, termId, termId in Ids(s), ws, table, []).value;
    ResolveWordsCandidates(s, termId, termId in Ids(s), ws, table, []);
    assert r.1 == Candidates(r.0.terms, ws);
    CandidatesEmpty(r.0.terms, ws);
    if forall k :: 0 <= k < |words| ==> CountNamed(r.0.terms, Lower(words[k])) <= 1 {
      forall w | w in ws
        ensures CountNamed(r.0.terms, w) <= 1
      {
        var k :| 0 <= k < |ws| && ws[k] == w;
      }
    } else {
      var k :| 0 <= k < |words| && CountNamed(r.0.terms, Lower(words[k])) > 1;
      assert ws[k] in ws;
    }
  }

  /** Without clarification ids, a store whose names were unique keeps them
      unique, and nothing is returned for clarification. */
  lemma AddWordsKeepsNamesUnique(s: Store, termId: nat, words: seq<string>, table: Table)
    requires UniqueNames(s.terms)
    requires AddSynonymsSimilars(s, termId, words, table, []).Success?
    ensures UniqueNames(AddSynonymsSimilars(s, termId, words, table, []).value.0.terms)
    ensures AddSynonymsSimilars(s, termId, words, table, []).value.1.None?
  {
    var ws := LowerAll(words);
    ResolveWordsTerms(s, termId, termId in Ids(s), ws, table, []);
    ResolveWordsCandidates(s, termId, termId in Ids(s), ws, table, []);
    var s' := AddSynonymsSimilars(s, termId, words, table, []).value.0;
    forall n
      ensures CountNamed(s'.terms, n) <= 1
    {
      if n in ws && !HasName(s.terms, n) {
        assert CountNamed(s.terms, n) == 0;
      }
    }
    CandidatesEmpty(s'.terms, ws);
  }

  lemma {:induction false} LinkChosenEffect(s: Store, termId: nat, found: bool, ids: seq<nat>, table: Table)
    ensures var r := LinkChosen(s, termId, found, ids, table);
      && (r.Success? <==> |ids| == 0 || table == Other || (found && Elems(ids) <= Ids(s)))
      && (r.Success? ==>
            && r.value.terms == s.terms && r.value.nextId == s.nextId
            && r.value.synonyms == s.synonyms + Added(table, Synonyms, termId, Elems(ids))
            && r.value.similars == s.similars + Added(table, Similars, termId, Elems(ids)))
    decreases |ids|
  {
    if |ids| > 0 {
      var rest := ids[1..];
      assert Elems(ids) == {ids[0]} + Elems(rest) by {
        assert ids == [ids[0]] + rest;
      }
      if table == Other {
        LinkChosenEffect(s, termId, found, rest, table);
      } else if found && ids[0] in Ids(s) {
        var s1 := Link(s, termId, ids[0], table);
        LinkAdds(s, termId, ids[0], table);
        assert Ids(s1) == Ids(s);
        LinkChosenEffect(s1, termId, found, rest, table);
        AddedUnion(table, Synonyms, termId, {ids[0]}, Elems(rest));
        AddedUnion(table, Similars, termId, {ids[0]}, Elems(rest));
      }
    }
  }

  /** With clarification ids: the call succeeds exactly when the table name is not
      recognised or the term and every chosen id exist; it then creates no term,
      returns nothing, and links the term with every chosen id in both directions
      in the recognised table, and in no table when the name is not recognised. */
  lemma ClarificationLinksChosen(s: Store, termId: nat, words: seq<string>, table: Table, ids: seq<nat>)
    requires |ids| > 0
    ensures var r := AddSynonymsSimilars(s, termId, words, table, ids);
      && (r.Success? <==> table == Other || (termId in Ids(s) && Elems(ids) <= Ids(s)))
      && (r.Success? ==>
            && r.value.0.terms == s.terms && r.value.0.nextId == s.nextId
            && r.value.1.None?
            && r.value.0.synonyms == s.synonyms + Added(table, Synonyms, termId, Elems(ids))
            && r.value.0.similars == s.similars + Added(table, Similars, termId, Elems(ids)))
  {
    LinkChosenEffect(s, termId, termId in Ids(s), ids, table);
  }

  /** Repeating a clarification changes nothing more: links are idempotent. */
  lemma ClarificationIdempotent(s: Store, termId: nat, words: seq<string>, table: Table, ids: seq<nat>)
    requires |ids| > 0
    requires AddSynonymsSimilars(s, termId, words, table, ids).Success?
    ensures var s1 := AddSynonymsSimilars(s, termId, words, table, ids).value.0;
      AddSynonymsSimilars(s1, termId, words, table, ids) == Success((s1, None))
  {
    ClarificationLinksChosen(s, termId, words, table, ids);
    var s1 := AddSynonymsSimilars(s, termId, words, table, ids).value.0;
    assert Ids(s1) == Ids(s);
    ClarificationLinksChosen(s1, termId, words, table, ids);
    var s2 := AddSynonymsSimilars(s1, termId, words, table, ids).value.0;
    assert s2 == Store(s1.terms, s1.synonyms, s1.similars, s1.nextId);
  }

  lemma SymPairsOk(a: nat, x: set<nat>, ids: set<nat>)
    requires a in ids && x <= ids
    ensures PairsOk(Sym(a, x), ids)
  {
  }

  /** Every successful call keeps the store valid and loses no term. */
  lemma AddSynonymsSimilarsValid(s: Store, termId: nat, words: seq<string>, table: Table, ids: seq<nat>)
    requires Valid(s)
    requires AddSynonymsSimilars(s, termId, words, table, ids).Success?
    ensures Valid(AddSynonymsSimilars(s, termId, words, table, ids).value.0)
    ensures Ids(s) <= Ids(AddSynonymsSimilars(s, termId, words, table, ids).value.0)
  {
    if |ids| > 0 {
      ClarificationLinksChosen(s, termId, words, table, ids);
      var s' := AddSynonymsSimilars(s, termId, words, table, ids).value.0;
      assert Ids(s') == Ids(s);
      if table != Other {
        SymPairsOk(termId, Elems(ids), Ids(s));
      }
    } else {
      ResolveWordsValid(s, termId, termId in Ids(s), LowerAll(words), table, []);
    }
  }
}
