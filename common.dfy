/** Types and table helpers shared by every part of the shopping-mall model. */
module Common {

  /** Database identifiers (JPA `Long` keys handed out by an increasing sequence). */
  type Id = nat

  datatype Option<+T> = None | Some(value: T)

  /** A service call either returns a value or throws an exception carrying an error. */
  datatype Result<+T, +E> = Ok(value: T) | Err(error: E)

  /** A row of the user table. `password` holds the encoded password. */
  datatype User = User(username: string, email: string, password: string, role: string)

  const ADMIN_ROLE := "ADMIN"
  const USER_ROLE := "USER"

  /** `keyword` occurs somewhere in `s`: Java's `String.contains`, and the
      meaning of a Spring Data `...Containing` query. */
  predicate Contains(s: string, keyword: string)
    decreases |s|
  {
    keyword <= s || (|s| > 0 && Contains(s[1..], keyword))
  }

  /** Every substring occurrence is found by `Contains`. */
  lemma {:induction false} ContainsAt(s: string, keyword: string, i: nat)
    requires i + |keyword| <= |s| && s[i..i + |keyword|] == keyword
    ensures Contains(s, keyword)
    decreases i
  {
    if i == 0 {
      assert keyword <= s;
    } else {
      assert s[1..][i - 1..i - 1 + |keyword|] == s[i..i + |keyword|];
      ContainsAt(s[1..], keyword, i - 1);
    }
  }

  /** Conversely, `Contains` only holds where there is an occurrence. */
  lemma {:induction false} ContainsOccurrence(s: string, keyword: string) returns (i: nat)
    requires Contains(s, keyword)
    ensures i + |keyword| <= |s| && s[i..i + |keyword|] == keyword
    decreases |s|
  {
    if keyword <= s {
      i := 0;
    } else {
      var j := ContainsOccurrence(s[1..], keyword);
      assert s[1..][j..j + |keyword|] == s[j + 1..j + 1 + |keyword|];
      i := j + 1;
    }
  }

  /** The keys below `n` of the rows of `m` that satisfy `keep`, largest key
      first: a scan of the table in descending key order. Since keys are
      handed out in creation order, this is "newest first". */
  function Select<T>(m: map<Id, T>, keep: T -> bool, n: nat): (r: seq<Id>)
    ensures forall k :: k in r <==> k in m && k < n && keep(m[k])
    ensures forall i, j :: 0 <= i < j < |r| ==> r[i] > r[j]
    decreases n
  {
    if n == 0 then []
    else
      var rest := Select(m, keep, n - 1);
      if n - 1 in m && keep(m[n - 1]) then
        assert forall j :: 0 <= j < |rest| ==> rest[j] in rest;
        [n - 1] + rest
      else rest
  }

  /** A sequence whose elements strictly decrease has as many distinct
      elements as it has positions. */
  lemma {:induction false} DecreasingCardinality(s: seq<Id>)
    requires forall i, j :: 0 <= i < j < |s| ==> s[i] > s[j]
    ensures |set k: Id | k in s| == |s|
  {
    if s != [] {
      var tail := s[1..];
      DecreasingCardinality(tail);
      var rest := set k: Id | k in tail;
      forall j | 0 <= j < |tail|
        ensures tail[j] != s[0]
      {
        assert tail[j] == s[j + 1];
      }
      assert s[0] !in rest;
      var all := set k: Id | k in s;
      assert all == rest + {s[0]};
      assert |all| == |rest| + 1;
      assert |rest| == |tail|;
      assert |all| == |s|;
    }
  }

  /** Spring's `PageRequest.of(page, size)` applied to an ordered result:
      `None` where `PageRequest.of` throws (negative page, size below one),
      otherwise the `page`-th slice of `size` elements, empty past the end. */
  function Paged<T>(s: seq<T>, page: int, size: int): (r: Option<seq<T>>)
    ensures r.None? <==> page < 0 || size < 1
    ensures r.Some? ==> |r.value| <= size
    ensures r.Some? ==> forall i :: 0 <= i < |r.value| ==>
      page * size + i < |s| && r.value[i] == s[page * size + i]
    ensures r.Some? && page * size < |s| ==> |r.value| == if |s| - page * size < size then |s| - page * size else size
  {
    if page < 0 || size < 1 then None
    else
      var start := page * size;
      if start >= |s| then Some([])
      else if |s| - start < size then Some(s[start..])
      else Some(s[start..start + size])
  }
}
