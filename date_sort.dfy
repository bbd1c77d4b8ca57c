/**
 * `list.sort((a, b) => date(b) - date(a))`: Array.prototype.sort is stable,
 * so the result is the stable sort by date, newest first. It is specified
 * here by insertion, and its properties are proved as lemmas.
 */
module DateSort {

  /** Newest first: no element is dated later than one before it. */
  predicate Descending<T>(s: seq<T>, date: T -> int) {
    forall i, j :: 0 <= i < j < |s| ==> date(s[i]) >= date(s[j])
  }

  /** Places `x` before the first element not newer than it (so `x` precedes its equals). */
  function Insert<T>(x: T, s: seq<T>, date: T -> int): seq<T> {
    if s == [] || date(s[0]) <= date(x) then [x] + s
    else [s[0]] + Insert(x, s[1..], date)
  }

  /** The stable sort by `date`, descending. */
  function SortByDate<T>(s: seq<T>, date: T -> int): seq<T> {
    if s == [] then [] else Insert(s[0], SortByDate(s[1..], date), date)
  }

  /** `s.map(f)`. */
  function Apply<A, B>(f: A -> B, s: seq<A>): (r: seq<B>)
    ensures |r| == |s|
    ensures forall i :: 0 <= i < |s| ==> r[i] == f(s[i])
  {
    if s == [] then [] else [f(s[0])] + Apply(f, s[1..])
  }

  /** Mapping over one more element appends its image. */
  lemma ApplySnoc<A, B>(f: A -> B, s: seq<A>, x: A)
    ensures Apply(f, s + [x]) == Apply(f, s) + [f(x)]
  {
    var r := Apply(f, s + [x]);
    assert forall i :: 0 <= i < |s| ==> r[i] == f(s[i]) by {
      forall i | 0 <= i < |s| ensures r[i] == f(s[i]) {
        assert (s + [x])[i] == s[i];
      }
    }
  }

  /** The elements dated `d`, in their order. */
  function DatedAt<T>(s: seq<T>, date: T -> int, d: int): seq<T> {
    if s == [] then []
    else (if date(s[0]) == d then [s[0]] else []) + DatedAt(s[1..], date, d)
  }

  lemma {:induction false} InsertPermutes<T>(x: T, s: seq<T>, date: T -> int)
    ensures multiset(Insert(x, s, date)) == multiset(s) + multiset{x}
  {
    if s != [] && date(s[0]) > date(x) {
      InsertPermutes(x, s[1..], date);
      assert s == [s[0]] + s[1..];
    }
  }

  lemma {:induction false} InsertDescending<T>(x: T, s: seq<T>, date: T -> int)
    requires Descending(s, date)
    ensures Descending(Insert(x, s, date), date)
  {
    if s != [] && date(s[0]) > date(x) {
      var rest := Insert(x, s[1..], date);
      InsertDescending(x, s[1..], date);
      InsertPermutes(x, s[1..], date);
      forall j | 0 <= j < |rest|
        ensures date(s[0]) >= date(rest[j])
      {
        assert rest[j] in multiset(rest);
        if rest[j] != x {
          assert rest[j] in s[1..];
        }
      }
    }
  }

  /** The result is a permutation of the input. */
  lemma {:induction false} SortByDatePermutes<T>(s: seq<T>, date: T -> int)
    ensures multiset(SortByDate(s, date)) == multiset(s)
  {
    if s != [] {
      SortByDatePermutes(s[1..], date);
      InsertPermutes(s[0], SortByDate(s[1..], date), date);
      assert s == [s[0]] + s[1..];
    }
  }

  /** The result is ordered newest first. */
  lemma {:induction false} SortByDateDescending<T>(s: seq<T>, date: T -> int)
    ensures Descending(SortByDate(s, date), date)
  {
    if s != [] {
      SortByDateDescending(s[1..], date);
      InsertDescending(s[0], SortByDate(s[1..], date), date);
    }
  }

  lemma {:induction false} InsertKeepsDatedAt<T>(x: T, s: seq<T>, date: T -> int, d: int)
    ensures DatedAt(Insert(x, s, date), date, d)
         == (if date(x) == d then [x] else []) + DatedAt(s, date, d)
  {
    if s == [] || date(s[0]) <= date(x) {
      assert ([x] + s)[1..] == s;
    } else {
      var rest := Insert(x, s[1..], date);
      InsertKeepsDatedAt(x, s[1..], date, d);
      assert ([s[0]] + rest)[1..] == rest;
      if date(x) == d {
        assert DatedAt(s, date, d) == DatedAt(s[1..], date, d);
        assert DatedAt(Insert(x, s, date), date, d) == DatedAt(rest, date, d);
      } else {
        assert DatedAt(rest, date, d) == DatedAt(s[1..], date, d);
      }
    }
  }

  /** Stability: elements of equal date keep their relative order. */
  lemma {:induction false} SortByDateStable<T>(s: seq<T>, date: T -> int, d: int)
    ensures DatedAt(SortByDate(s, date), date, d) == DatedAt(s, date, d)
  {
    if s != [] {
      SortByDateStable(s[1..], date, d);
      InsertKeepsDatedAt(s[0], SortByDate(s[1..], date), date, d);
    }
  }

  lemma {:induction false} InsertCommutes<A, B>(f: A -> B, x: A, s: seq<A>, dateA: A -> int, dateB: B -> int)
    requires forall a :: dateB(f(a)) == dateA(a)
    ensures Apply(f, Insert(x, s, dateA)) == Insert(f(x), Apply(f, s), dateB)
  {
    if s != [] && dateA(s[0]) > dateA(x) {
      InsertCommutes(f, x, s[1..], dateA, dateB);
      assert Apply(f, s)[1..] == Apply(f, s[1..]);
    }
  }

  /**
   * Sorting commutes with a map that keeps dates: sorting the projections
   * yields the projections of the sorted list, position by position.
   */
  lemma {:induction false} SortByDateCommutes<A, B>(f: A -> B, s: seq<A>, dateA: A -> int, dateB: B -> int)
    requires forall a :: dateB(f(a)) == dateA(a)
    ensures SortByDate(Apply(f, s), dateB) == Apply(f, SortByDate(s, dateA))
  {
    if s != [] {
      SortByDateCommutes(f, s[1..], dateA, dateB);
      assert Apply(f, s)[1..] == Apply(f, s[1..]);
      InsertCommutes(f, s[0], SortByDate(s[1..], dateA), dateA, dateB);
    }
  }
}
