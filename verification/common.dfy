/** Shared vocabulary of the model: identifiers, the error taxonomy of the
    services (NestJS exceptions), and the query shapes the document store
    offers (sort by creation time descending, skip/limit pagination). */
module Common {

  /** Identifiers are the hexadecimal strings of document ids. */
  type UserId = string
  type PostId = string
  type SocketId = string

  datatype Option<+T> = None | Some(value: T)

  /** The exceptions the services throw, plus the store's refusal of a
      document its schema rejects and of a negative `skip`. */
  datatype Error =
    | NotFound(message: string)
    | BadRequest(message: string)
    | Forbidden(message: string)
    | ValidationFailed(message: string)
    | NegativeSkip

  datatype Result<+T> = Success(value: T) | Failure(error: Error)

  /** Non-increasing order of a timestamp key: the result of `.sort({ createdAt: -1 })`. */
  ghost predicate NewestFirst<T>(s: seq<T>, key: T -> int)
  {
    forall i, j :: 0 <= i < j < |s| ==> key(s[i]) >= key(s[j])
  }

  /** Every element of `s` is at most as new as `t`. */
  ghost predicate NoNewerThan<T>(t: int, s: seq<T>, key: T -> int)
  {
    forall k :: 0 <= k < |s| ==> key(s[k]) <= t
  }

  lemma NoNewerThanPermutation<T>(t: int, a: seq<T>, b: seq<T>, key: T -> int)
    requires multiset(a) == multiset(b)
    requires NoNewerThan(t, a, key)
    ensures NoNewerThan(t, b, key)
  {
    forall k | 0 <= k < |b| ensures key(b[k]) <= t {
      assert b[k] in multiset(a);
    }
  }

  /** Putting an element no older than any of a newest-first sequence in
      front of it keeps the sequence newest-first. */
  lemma PrependKeepsNewestFirst<T>(x: T, s: seq<T>, key: T -> int)
    requires NewestFirst(s, key)
    requires NoNewerThan(key(x), s, key)
    ensures NewestFirst([x] + s, key)
  {
    var r := [x] + s;
    forall i, j | 0 <= i < j < |r| ensures key(r[i]) >= key(r[j]) {
      assert r[j] == s[j - 1];
      if i > 0 {
        assert r[i] == s[i - 1];
      }
    }
  }

  /** Inserts `x` into a newest-first sequence in front of the first element
      that is not newer than `x`. */
  function InsertByKey<T>(x: T, s: seq<T>, key: T -> int): (r: seq<T>)
    requires NewestFirst(s, key)
    ensures multiset(r) == multiset(s) + multiset{x}
    ensures NewestFirst(r, key)
  {
    if |s| == 0 then [x]
    else if key(s[0]) <= key(x) then
      assert NoNewerThan(key(x), s, key);
      PrependKeepsNewestFirst(x, s, key);
      [x] + s
    else
      var rest := InsertByKey(x, s[1..], key);
      InsertBehindHead(x, s, rest, key);
      [s[0]] + rest
  }

  /** The recursive step of InsertByKey: when `x` is older than the head,
      the head followed by `x` inserted into the tail is newest-first and
      holds `s` and `x`. */
  lemma InsertBehindHead<T>(x: T, s: seq<T>, rest: seq<T>, key: T -> int)
    requires |s| > 0 && NewestFirst(s, key) && key(x) < key(s[0])
    requires multiset(rest) == multiset(s[1..]) + multiset{x}
    requires NewestFirst(rest, key)
    ensures multiset([s[0]] + rest) == multiset(s) + multiset{x}
    ensures NewestFirst([s[0]] + rest, key)
  {
    assert s == [s[0]] + s[1..];
    assert NoNewerThan(key(s[0]), s[1..] + [x], key);
    assert multiset(s[1..] + [x]) == multiset(rest);
    NoNewerThanPermutation(key(s[0]), s[1..] + [x], rest, key);
    PrependKeepsNewestFirst(s[0], rest, key);
  }

  /** The store's sort on a timestamp, newest first. The store breaks ties
      in no particular order; this model fixes one, and nothing proved
      about it depends on the order of equal keys. */
  function SortNewestFirst<T>(s: seq<T>, key: T -> int): (r: seq<T>)
    ensures multiset(r) == multiset(s)
    ensures NewestFirst(r, key)
  {
    if |s| == 0 then []
    else
      assert s == [s[0]] + s[1..];
      InsertByKey(s[0], SortNewestFirst(s[1..], key), key)
  }

  /** Sorting neither adds nor drops a document. */
  lemma SortKeepsMembers<T>(s: seq<T>, key: T -> int)
    ensures forall x :: x in SortNewestFirst(s, key) <==> x in s
  {
    var r := SortNewestFirst(s, key);
    assert forall x :: x in r <==> x in multiset(r);
    assert forall x :: x in s <==> x in multiset(s);
  }

  /** The number of documents a `.skip(n)` passes over: `(page - 1) * limit`. */
  function Skip(page: int, limit: int): int
  {
    (page - 1) * limit
  }

  /** `.skip((page - 1) * limit).limit(limit)` on the store: a negative skip
      is refused, a limit of 0 means no limit, and a negative limit returns
      at most its absolute value of documents in one batch. */
  function Paginate<T>(s: seq<T>, page: int, limit: int): (r: Result<seq<T>>)
    ensures r.Failure? <==> Skip(page, limit) < 0
    ensures r.Failure? ==> r.error == NegativeSkip
    ensures r.Success? ==> |r.value| <= |s|
    ensures r.Success? && limit != 0 ==> |r.value| <= if limit < 0 then -limit else limit
    ensures r.Success? ==> forall i :: 0 <= i < |r.value| ==> Skip(page, limit) + i < |s| && r.value[i] == s[Skip(page, limit) + i]
    ensures r.Success? && (limit == 0 || |s| - Skip(page, limit) <= if limit < 0 then -limit else limit) ==>
              |r.value| == if Skip(page, limit) < |s| then |s| - Skip(page, limit) else 0
    ensures r.Success? && limit != 0 && Skip(page, limit) + (if limit < 0 then -limit else limit) <= |s| ==>
              |r.value| == if limit < 0 then -limit else limit
  {
    var skip := Skip(page, limit);
    if skip < 0 then Failure(NegativeSkip)
    else
      var rest := if skip < |s| then s[skip..] else [];
      var cap := if limit < 0 then -limit else limit;
      Success(if cap == 0 || |rest| <= cap then rest else rest[..cap])
  }

  /** `r` is what `.sort(key: -1).skip((page - 1) * limit).limit(limit)`
      returns for the documents of `listing`: the page of some newest-first
      arrangement of exactly those documents. Only the order of equal keys,
      which the store leaves open, is not fixed. */
  ghost predicate NewestFirstPage<T(!new)>(r: seq<T>, listing: seq<T>, page: int, limit: int, key: T -> int)
  {
    exists s :: multiset(s) == multiset(listing) && NewestFirst(s, key) && Paginate(s, page, limit) == Success(r)
  }

  /** A page holds documents of the sequence only; the first page without a
      limit holds all of them. */
  lemma PageMembers<T>(s: seq<T>, page: int, limit: int)
    requires Paginate(s, page, limit).Success?
    ensures forall x :: x in Paginate(s, page, limit).value ==> x in s
    ensures page == 1 && limit == 0 ==> Paginate(s, page, limit).value == s
  {
    var r := Paginate(s, page, limit).value;
    forall x | x in r ensures x in s {
      var k :| 0 <= k < |r| && r[k] == x;
      assert s[Skip(page, limit) + k] == x;
    }
  }

  /** A page of a newest-first sequence is newest-first. */
  lemma PageOfSortedIsSorted<T>(s: seq<T>, page: int, limit: int, key: T -> int)
    requires NewestFirst(s, key)
    requires Paginate(s, page, limit).Success?
    ensures NewestFirst(Paginate(s, page, limit).value, key)
  {
    var r := Paginate(s, page, limit).value;
    var skip := Skip(page, limit);
    forall i, j | 0 <= i < j < |r| ensures key(r[i]) >= key(r[j]) {
      assert r[i] == s[skip + i] && r[j] == s[skip + j];
    }
  }

  /** A `deleteOne`/`findByIdAndDelete` of the document at position `k`. */
  function RemoveAt<T>(s: seq<T>, k: nat): (r: seq<T>)
    requires k < |s|
    ensures |r| == |s| - 1
    ensures multiset(r) == multiset(s) - multiset{s[k]}
    ensures forall i :: 0 <= i < |r| ==> r[i] == if i < k then s[i] else s[i + 1]
  {
    assert s == s[..k] + [s[k]] + s[k+1..];
    s[..k] + s[k+1..]
  }
}
