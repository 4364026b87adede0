/** Vocabulary shared by every module: optional values, filtering and ORDER BY. */
module Basics {

  datatype Option<+T> = None | Some(value: T)

  /** A table's name as moonlink and the drop trigger write it: schema and name, quoted where needed. */
  type Key = string

  /** Answer of an RPC that removes a table; an error may come before or after the removal. */
  datatype Reply = Removed | ErrorBefore | ErrorAfter

  datatype Result<+T> = Ok(value: T) | Panic(reason: string)

  /** True when `s` is empty or begins with a character outside `c`. */
  predicate NotBefore(c: char, s: string) {
    s == "" || s[0] != c
  }

  lemma Reassociate(a: string, b: string, c: string, d: string)
    ensures a + b + c + d == a + (b + (c + d))
  {
  }

  /** The strings occurring in `s`. */
  function Elements(s: seq<string>): set<string> { set k | 0 <= k < |s| :: s[k] }

  lemma ElementsAppend(a: seq<string>, b: seq<string>)
    ensures Elements(a + b) == Elements(a) + Elements(b)
  {
    forall k | 0 <= k < |a| ensures a[k] in Elements(a + b) {
      assert (a + b)[k] == a[k];
    }
    forall k | 0 <= k < |b| ensures b[k] in Elements(a + b) {
      assert (a + b)[|a| + k] == b[k];
    }
  }

  function Filter<T>(keep: T -> bool, s: seq<T>): seq<T> {
    if s == [] then []
    else if keep(s[0]) then [s[0]] + Filter(keep, s[1..])
    else Filter(keep, s[1..])
  }

  lemma {:induction false} FilterMember<T>(keep: T -> bool, s: seq<T>, x: T)
    ensures x in Filter(keep, s) <==> x in s && keep(x)
  {
    if s != [] {
      FilterMember(keep, s[1..], x);
      assert s == [s[0]] + s[1..];
    }
  }

  lemma {:induction false} FilterFilter<T>(p: T -> bool, q: T -> bool, r: T -> bool, s: seq<T>)
    requires forall x :: x in s ==> (r(x) <==> p(x) && q(x))
    ensures Filter(p, Filter(q, s)) == Filter(r, s)
  {
    if s != [] {
      FilterFilter(p, q, r, s[1..]);
      if q(s[0]) {
        var rest := Filter(q, s[1..]);
        assert ([s[0]] + rest)[1..] == rest;
      }
    }
  }

  /** A stable insertion sort standing for the server's ORDER BY. */
  function Insert<T>(le: (T, T) -> bool, x: T, s: seq<T>): seq<T> {
    if s == [] then [x]
    else if le(x, s[0]) then [x] + s
    else [s[0]] + Insert(le, x, s[1..])
  }

  function OrderBy<T>(le: (T, T) -> bool, s: seq<T>): seq<T> {
    if s == [] then [] else Insert(le, s[0], OrderBy(le, s[1..]))
  }

  ghost predicate Sorted<T(!new)>(le: (T, T) -> bool, s: seq<T>) {
    forall i, j :: 0 <= i < j < |s| ==> le(s[i], s[j])
  }

  ghost predicate TotalOrder<T(!new)>(le: (T, T) -> bool) {
    && (forall x, y :: le(x, y) || le(y, x))
    && (forall x, y, z :: le(x, y) && le(y, z) ==> le(x, z))
  }

  lemma {:induction false} InsertAdds<T>(le: (T, T) -> bool, x: T, s: seq<T>)
    ensures multiset(Insert(le, x, s)) == multiset(s) + multiset{x}
  {
    if s != [] {
      assert s == [s[0]] + s[1..];
      InsertAdds(le, x, s[1..]);
    }
  }

  lemma SortedCons<T(!new)>(le: (T, T) -> bool, x: T, s: seq<T>)
    requires Sorted(le, s) && forall y :: y in multiset(s) ==> le(x, y)
    ensures Sorted(le, [x] + s)
  {
    forall i, j | 0 <= i < j < |s| + 1 ensures le(([x] + s)[i], ([x] + s)[j]) {
      assert ([x] + s)[j] == s[j - 1] && s[j - 1] in multiset(s);
    }
  }

  lemma SortedTail<T(!new)>(le: (T, T) -> bool, s: seq<T>)
    requires Sorted(le, s) && s != []
    ensures Sorted(le, s[1..]) && forall y :: y in multiset(s[1..]) ==> le(s[0], y)
  {
    forall y | y in multiset(s[1..]) ensures le(s[0], y) {
      assert y in s[1..];
    }
  }

  lemma {:induction false} InsertSorted<T(!new)>(le: (T, T) -> bool, x: T, s: seq<T>)
    requires TotalOrder(le) && Sorted(le, s)
    ensures Sorted(le, Insert(le, x, s))
  {
    if s == [] {
    } else {
      SortedTail(le, s);
      if le(x, s[0]) {
        assert s == [s[0]] + s[1..];
        forall y | y in multiset(s) ensures le(x, y) {
          assert y == s[0] || y in multiset(s[1..]);
        }
        SortedCons(le, x, s);
      } else {
        InsertSorted(le, x, s[1..]);
        InsertAdds(le, x, s[1..]);
        SortedCons(le, s[0], Insert(le, x, s[1..]));
      }
    }
  }

  lemma {:induction false} OrderBySorts<T(!new)>(le: (T, T) -> bool, s: seq<T>)
    requires TotalOrder(le)
    ensures Sorted(le, OrderBy(le, s))
    ensures multiset(OrderBy(le, s)) == multiset(s)
  {
    if s != [] {
      OrderBySorts(le, s[1..]);
      InsertSorted(le, s[0], OrderBy(le, s[1..]));
      InsertAdds(le, s[0], OrderBy(le, s[1..]));
      assert s == [s[0]] + s[1..];
    }
  }
}
