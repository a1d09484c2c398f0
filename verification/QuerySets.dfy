/** What the views ask of Django's object-relational mapper: `filter(**criteria)`
    over event rows, `get(...)` of exactly one row, and `order_by(field)`. */
module QuerySets {
  import opened Records

  // ---------------------------------------------------------------------------
  // Selection and single-row lookup
  // ---------------------------------------------------------------------------

  /** The rows of `s` that satisfy `p`, in their original order. */
  function Where<T(!new)>(s: seq<T>, p: T -> bool): (r: seq<T>)
    ensures |r| <= |s|
    ensures forall i :: 0 <= i < |r| ==> p(r[i]) && r[i] in s
  {
    if s == [] then []
    else
      var rest := Where(s[1..], p);
      assert forall i :: 0 <= i < |rest| ==> rest[i] in s by {
        forall i | 0 <= i < |rest| ensures rest[i] in s {
          var j :| 0 <= j < |s[1..]| && s[1..][j] == rest[i];
          assert s[j + 1] == rest[i];
        }
      }
      (if p(s[0]) then [s[0]] else []) + rest
  }

  /** `Where` keeps each row that satisfies `p` as often as it occurs, and no
      other row. */
  lemma {:induction false} WhereCounts<T(!new)>(s: seq<T>, p: T -> bool)
    ensures forall x :: multiset(Where(s, p))[x] == if p(x) then multiset(s)[x] else 0
  {
    if s != [] {
      WhereCounts(s[1..], p);
      assert s == [s[0]] + s[1..];
    }
  }

  /** `Where` keeps exactly the members that satisfy `p`. */
  lemma WhereMembers<T(!new)>(s: seq<T>, p: T -> bool, x: T)
    ensures x in Where(s, p) <==> x in s && p(x)
  {
    WhereCounts(s, p);
    assert x in Where(s, p) <==> multiset(Where(s, p))[x] > 0;
    assert x in s <==> multiset(s)[x] > 0;
  }

  /** The exceptions a `get` raises. */
  datatype OrmError = DoesNotExist | MultipleObjectsReturned

  datatype GetResult<T> = Found(value: T) | Raised(error: OrmError)

  /** `Model.objects.get(...)`: the one matching row, `DoesNotExist` when there
      is none and `MultipleObjectsReturned` when there are several. */
  function Get<T(==,!new)>(s: seq<T>, p: T -> bool): (r: GetResult<T>)
    ensures r == Raised(DoesNotExist) <==> forall x :: x in s ==> !p(x)
    ensures r == Raised(MultipleObjectsReturned) <==> |Where(s, p)| >= 2
    ensures r.Found? ==> r.value in s && p(r.value) && Where(s, p) == [r.value]
  {
    var matching := Where(s, p);
    if |matching| == 0 then
      forall x | x in s ensures !p(x) { WhereMembers(s, p, x); }
      Raised(DoesNotExist)
    else
      WhereMembers(s, p, matching[0]);
      if |matching| == 1 then Found(matching[0]) else Raised(MultipleObjectsReturned)
  }

  /** When no two rows satisfy `p`, `Get` never raises `MultipleObjectsReturned`. */
  lemma {:induction false} GetOfUnique<T(!new)>(s: seq<T>, p: T -> bool)
    requires forall i, j :: 0 <= i < j < |s| && p(s[i]) ==> !p(s[j])
    ensures |Where(s, p)| <= 1
    ensures Get(s, p) != Raised(MultipleObjectsReturned)
  {
    if s != [] {
      GetOfUnique(s[1..], p);
      if p(s[0]) {
        forall x | x in s[1..] ensures !p(x) {
          var j :| 0 <= j < |s[1..]| && s[1..][j] == x;
          assert s[j + 1] == x;
        }
        assert Where(s[1..], p) == [];
      }
    }
  }

  // ---------------------------------------------------------------------------
  // filter(**criteria)
  // ---------------------------------------------------------------------------

  /** The lookups the views put on a date-time column: none, `field=None`,
      `field__lt=bound` and `field__gt=bound`. */
  datatype FieldLookup = AnyValue | IsNull | Lt(bound: Instant) | Gt(bound: Instant)

  /** SQL semantics: a comparison with NULL is not true, so `__lt` and `__gt`
      never select a row whose column is NULL. */
  predicate Satisfies(v: Option<Instant>, l: FieldLookup)
  {
    match l
    case AnyValue => true
    case IsNull => v.None?
    case Lt(b) => v.Some? && v.value < b
    case Gt(b) => v.Some? && v.value > b
  }

  /** A filter dictionary over the event columns the views constrain; `None`
      is a key that is absent from the dictionary. */
  datatype Query = Query(
    archiveTime: FieldLookup,
    startTime: FieldLookup,
    status: Option<Status>,
    public: Option<bool>,
    featured: Option<bool>)

  const NoCriteria := Query(AnyValue, AnyValue, None, None, None)

  predicate Equals<T(==)>(v: T, wanted: Option<T>)
  {
    wanted.None? || v == wanted.value
  }

  /** A row is selected when it meets every entry of the dictionary. */
  predicate Matches(q: Query, e: Event)
  {
    && Satisfies(e.archiveTime, q.archiveTime)
    && Satisfies(e.startTime, q.startTime)
    && Equals(e.status, q.status)
    && Equals(e.public, q.public)
    && Equals(e.featured, q.featured)
  }

  /** `q['public'] = True`: setting the key replaces whatever it held. */
  function RequirePublic(q: Query): (r: Query)
    ensures forall e :: Matches(r, e) ==> e.public
    ensures q.public.None? ==> forall e :: Matches(r, e) <==> Matches(q, e) && e.public
  {
    q.(public := Some(true))
  }

  /** `Event.objects.filter(**q)` with no ordering: store order. */
  function Filter(events: seq<Event>, q: Query): seq<Event>
  {
    Where(events, e => Matches(q, e))
  }

  /** Exactly the matching rows, each as often as it is stored. */
  lemma FilterCounts(events: seq<Event>, q: Query)
    ensures forall e :: multiset(Filter(events, q))[e] == if Matches(q, e) then multiset(events)[e] else 0
    ensures forall e :: e in Filter(events, q) <==> e in events && Matches(q, e)
  {
    WhereCounts(events, e => Matches(q, e));
    forall e ensures e in Filter(events, q) <==> e in events && Matches(q, e) {
      WhereMembers(events, e => Matches(q, e), e);
    }
  }

  // ---------------------------------------------------------------------------
  // order_by(field) and order_by('-field')
  // ---------------------------------------------------------------------------

  datatype Field = ArchiveTime | StartTime
  datatype Direction = Ascending | Descending
  datatype Ordering = Ordering(field: Field, direction: Direction)

  function KeyOf(e: Event, f: Field): Option<Instant>
  {
    match f
    case ArchiveTime => e.archiveTime
    case StartTime => e.startTime
  }

  /** Ascending order of a nullable column, NULL sorting after every value (as
      in PostgreSQL; the views only order rows whose key is not NULL). */
  predicate KeyLe(a: Option<Instant>, b: Option<Instant>)
  {
    b.None? || (a.Some? && a.value <= b.value)
  }

  /** `a` may stand before `b` in a result ordered by `o`. */
  predicate Precedes(o: Ordering, a: Event, b: Event)
  {
    match o.direction
    case Ascending => KeyLe(KeyOf(a, o.field), KeyOf(b, o.field))
    case Descending => KeyLe(KeyOf(b, o.field), KeyOf(a, o.field))
  }

  predicate SortedBy(o: Ordering, s: seq<Event>)
  {
    forall i, j :: 0 <= i < j < |s| ==> Precedes(o, s[i], s[j])
  }

  /** `x` placed into the sorted `s` before the first row it may precede. */
  function Insert(o: Ordering, x: Event, s: seq<Event>): (r: seq<Event>)
    requires SortedBy(o, s)
    ensures SortedBy(o, r)
    ensures |r| == |s| + 1
    ensures multiset(r) == multiset(s) + multiset{x}
  {
    if s == [] then [x]
    else if Precedes(o, x, s[0]) then
      SortedCons(o, x, s);
      [x] + s
    else
      var rest := Insert(o, x, s[1..]);
      assert s == [s[0]] + s[1..];
      HeadPrecedesInserted(o, s, x, rest);
      [s[0]] + rest
  }

  /** Either of two rows may stand before the other, or both may. */
  lemma PrecedesTotal(o: Ordering, a: Event, b: Event)
    ensures Precedes(o, a, b) || Precedes(o, b, a)
  {
  }

  /** A row that may precede the head of a sorted list may lead it. */
  lemma SortedCons(o: Ordering, x: Event, s: seq<Event>)
    requires SortedBy(o, s) && s != [] && Precedes(o, x, s[0])
    ensures SortedBy(o, [x] + s)
  {
    forall j | 0 <= j < |s| ensures Precedes(o, x, s[j]) {
      PrecedesTransitive(o, x, s[0], s[j]);
    }
  }

  lemma PrecedesTransitive(o: Ordering, a: Event, b: Event, c: Event)
    requires Precedes(o, a, b) && Precedes(o, b, c)
    ensures Precedes(o, a, c)
  {
  }

  /** When `x` may not lead the sorted `s`, the head of `s` may stand before
      every row of `s[1..]` with `x` inserted, so it leads them. */
  lemma HeadPrecedesInserted(o: Ordering, s: seq<Event>, x: Event, rest: seq<Event>)
    requires SortedBy(o, s) && s != [] && !Precedes(o, x, s[0])
    requires SortedBy(o, rest) && multiset(rest) == multiset(s[1..]) + multiset{x}
    ensures SortedBy(o, [s[0]] + rest)
  {
    PrecedesTotal(o, x, s[0]);
    forall k | 0 <= k < |rest| ensures Precedes(o, s[0], rest[k]) {
      assert rest[k] in multiset(rest);
      if rest[k] != x {
        assert rest[k] in s[1..];
        var j :| 0 <= j < |s[1..]| && s[1..][j] == rest[k];
        assert s[j + 1] == rest[k];
      }
    }
    var r := [s[0]] + rest;
    forall i, j | 0 <= i < j < |r| ensures Precedes(o, r[i], r[j]) {
      if i > 0 {
        assert r[i] == rest[i - 1] && r[j] == rest[j - 1];
      } else {
        assert r[j] == rest[j - 1];
      }
    }
  }

  /** `queryset.order_by(...)`: the rows rearranged into order `o`. Rows with
      equal keys keep their store order; the database leaves that order open. */
  function OrderBy(s: seq<Event>, o: Ordering): (r: seq<Event>)
    ensures SortedBy(o, r)
    ensures |r| == |s|
    ensures multiset(r) == multiset(s)
  {
    if s == [] then []
    else
      assert s == [s[0]] + s[1..];
      Insert(o, s[0], OrderBy(s[1..], o))
  }

  /** In a sorted sequence every row of a prefix may precede every row after it. */
  lemma SortedSplit(o: Ordering, s: seq<Event>, k: nat)
    requires SortedBy(o, s) && k <= |s|
    ensures SortedBy(o, s[..k]) && SortedBy(o, s[k..])
    ensures forall x, y :: x in s[..k] && y in s[k..] ==> Precedes(o, x, y)
    ensures multiset(s[k..]) == multiset(s) - multiset(s[..k])
  {
    assert s == s[..k] + s[k..];
    forall x, y | x in s[..k] && y in s[k..] ensures Precedes(o, x, y) {
      var i :| 0 <= i < k && s[..k][i] == x;
      var j :| 0 <= j < |s| - k && s[k..][j] == y;
      assert s[i] == x && s[k + j] == y;
    }
  }

  /** `order_by(...)[:k]`: the first `k` rows in order `o`, and none of the
      rows left out may stand before any of them. */
  lemma {:induction false} OrderedPrefix(s: seq<Event>, o: Ordering, k: nat)
    requires k <= |s|
    ensures var taken := OrderBy(s, o)[..k];
      && |taken| == k
      && SortedBy(o, taken)
      && multiset(taken) <= multiset(s)
      && forall x, y :: x in taken && y in multiset(s) - multiset(taken) ==> Precedes(o, x, y)
  {
    var ordered := OrderBy(s, o);
    SortedSplit(o, ordered, k);
    assert ordered == ordered[..k] + ordered[k..];
  }
}
