/** Session records, the completed-session filter and the newest-first order. */
module Sessions {
  import opened Dates

  /** One record of the session history: when the session took place and whether
      the user completed it. */
  datatype Session = Session(dateSession: Timestamp, isSessionCompleted: bool)

  /** `sortByDate`, the comparator handed to `sort`: positive (1) when `first`
      is strictly before `second`, so that `second` is placed first; -1 otherwise,
      including for two sessions with the same timestamp. */
  function SortByDate(first: Session, second: Session): (r: int)
    ensures r == 1 || r == -1
  {
    if first.dateSession < second.dateSession then 1 else -1
  }

  /** The comparator never reports two sessions as equal: for distinct timestamps
      it is antisymmetric, for equal ones it claims each precedes the other. */
  lemma SortByDateNeverEqual(first: Session, second: Session)
    ensures SortByDate(first, second) != 0
    ensures first.dateSession != second.dateSession ==>
              SortByDate(first, second) == -SortByDate(second, first)
    ensures first.dateSession == second.dateSession ==>
              SortByDate(first, second) == SortByDate(second, first) == -1
    ensures SortByDate(first, second) > 0 <==> second.dateSession > first.dateSession
  {
  }

  /** Newest first: no session is older than a session listed after it. */
  predicate NewestFirst(s: seq<Session>)
  {
    forall i, j :: 0 <= i < j < |s| ==> s[j].dateSession <= s[i].dateSession
  }

  predicate AllCompleted(s: seq<Session>)
  {
    forall i :: 0 <= i < |s| ==> s[i].isSessionCompleted
  }

  /** `sessionHistory.filter(session => session.isSessionCompleted)`: the completed
      sessions, in their original order. */
  function Completed(history: seq<Session>): (c: seq<Session>)
    ensures AllCompleted(c)
    ensures forall x :: multiset(c)[x] == if x.isSessionCompleted then multiset(history)[x] else 0
  {
    if history == [] then []
    else
      assert history == [history[0]] + history[1..];
      (if history[0].isSessionCompleted then [history[0]] else []) + Completed(history[1..])
  }

  /** Places `x` in front of the first session of `s` that is not newer than it. */
  function Insert(x: Session, s: seq<Session>): (r: seq<Session>)
    requires NewestFirst(s)
    ensures NewestFirst(r)
    ensures multiset(r) == multiset(s) + multiset{x}
    ensures |r| == |s| + 1 && (r[0] == x || (s != [] && r[0] == s[0]))
  {
    if s == [] || s[0].dateSession <= x.dateSession then [x] + s
    else
      assert s == [s[0]] + s[1..];
      [s[0]] + Insert(x, s[1..])
  }

  /** A reference newest-first ordering of `s` (insertion sort). Any sort by
      `SortByDate` yields a sequence with the same two properties. */
  function NewestFirstOrder(s: seq<Session>): (r: seq<Session>)
    ensures NewestFirst(r)
    ensures multiset(r) == multiset(s)
  {
    if s == [] then []
    else
      assert s == [s[0]] + s[1..];
      Insert(s[0], NewestFirstOrder(s[1..]))
  }

  /** Among completed sessions the newest-first order is unique: two newest-first
      permutations of the same sessions are equal, whatever order the sort gave
      to sessions with the same timestamp. */
  lemma {:induction false} NewestFirstUnique(a: seq<Session>, b: seq<Session>)
    requires NewestFirst(a) && NewestFirst(b)
    requires multiset(a) == multiset(b)
    requires AllCompleted(a)
    ensures a == b
  {
    if a == [] {
      assert |multiset(b)| == 0;
    } else {
      assert |b| == |multiset(b)| == |a|;
      SameHead(a, b);
      DropHead(a);
      DropHead(b);
      NewestFirstUnique(a[1..], b[1..]);
      assert a == [a[0]] + a[1..];
      assert b == [b[0]] + b[1..];
    }
  }

  /** A permutation of completed sessions holds only completed sessions. */
  lemma AllCompletedPermutation(a: seq<Session>, b: seq<Session>)
    requires multiset(a) == multiset(b)
    requires AllCompleted(b)
    ensures AllCompleted(a)
  {
    forall i | 0 <= i < |a| ensures a[i].isSessionCompleted {
      assert a[i] in multiset(b);
    }
  }

  /** Two newest-first permutations of completed sessions start with the same session. */
  lemma SameHead(a: seq<Session>, b: seq<Session>)
    requires NewestFirst(a) && NewestFirst(b)
    requires multiset(a) == multiset(b)
    requires AllCompleted(a)
    requires a != [] && b != []
    ensures a[0] == b[0]
  {
    assert a[0] in multiset(b);
    assert b[0] in multiset(a);
    var j :| 0 <= j < |b| && b[j] == a[0];
    var i :| 0 <= i < |a| && a[i] == b[0];
    assert a[i].dateSession <= a[0].dateSession;
    assert b[j].dateSession <= b[0].dateSession;
  }

  /** Dropping the first session keeps a newest-first list newest first and
      removes exactly that session from its multiset. */
  lemma DropHead(s: seq<Session>)
    requires NewestFirst(s) && s != []
    ensures NewestFirst(s[1..])
    ensures multiset(s[1..]) == multiset(s) - multiset{s[0]}
    ensures AllCompleted(s) ==> AllCompleted(s[1..])
  {
    assert s == [s[0]] + s[1..];
  }

  /** The in-place `sort(sortByDate)` of the filtered array: afterwards the array
      holds the same sessions, newest first. The engine's own sort algorithm is
      not modelled; this insertion sort consults the same comparator. */
  method SortNewestFirst(a: array<Session>)
    modifies a
    ensures NewestFirst(a[..])
    ensures multiset(a[..]) == multiset(old(a[..]))
  {
    var i := 0;
    while i < a.Length
      invariant 0 <= i <= a.Length
      invariant NewestFirst(a[..i])
      invariant multiset(a[..]) == multiset(old(a[..]))
    {
      InsertNewer(a, i);
      i := i + 1;
    }
    assert a[..a.Length] == a[..];
  }

  /** One insertion step: moves `a[i]` left past every session older than it. */
  method InsertNewer(a: array<Session>, i: nat)
    requires i < a.Length
    requires NewestFirst(a[..i])
    modifies a
    ensures NewestFirst(a[..i + 1])
    ensures a[i + 1..] == old(a[i + 1..])
    ensures multiset(a[..]) == multiset(old(a[..]))
  {
    var j := i;
    while j > 0 && SortByDate(a[j - 1], a[j]) > 0
      invariant 0 <= j <= i
      invariant forall p, q :: 0 <= p < q <= i && p != j && q != j ==> a[q].dateSession <= a[p].dateSession
      invariant forall q :: j < q <= i ==> a[q].dateSession <= a[j].dateSession
      invariant a[i + 1..] == old(a[i + 1..])
      invariant multiset(a[..]) == multiset(old(a[..]))
    {
      Swap(a, j - 1, j);
      j := j - 1;
    }
  }

  method Swap(a: array<Session>, i: nat, j: nat)
    requires i < j < a.Length
    modifies a
    ensures a[..] == old(a[..])[i := old(a[j])][j := old(a[i])]
    ensures multiset(a[..]) == multiset(old(a[..]))
  {
    a[i], a[j] := a[j], a[i];
  }
}
