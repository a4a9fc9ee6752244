/** The report collection and the owner-scoped operations the report routes
    run on it: list (newest first, at most 50), get by id and delete by id,
    each filtered by the caller's user id. The collection is a sequence in
    insertion order; the database's availability is a parameter of each
    route. */
module ReportStore {
  import opened Wrappers
  import opened Seqs
  import opened Schema
  import opened Auth

  type Store = seq<Report>

  /** No two stored reports share an id. */
  predicate UniqueIds(store: Store)
  {
    forall i, j :: 0 <= i < j < |store| ==> store[i].id != store[j].id
  }

  /** Appending a report whose id no stored report has keeps ids unique. */
  lemma AppendFreshId(store: Store, r: Report)
    requires UniqueIds(store)
    requires forall k :: 0 <= k < |store| ==> store[k].id != r.id
    ensures UniqueIds(store + [r])
  {
    var after := store + [r];
    assert forall k :: 0 <= k < |store| ==> after[k] == store[k];
  }

  /** The caller's reports, in store order. */
  function Owned(store: Store, owner: string): (r: Store)
    ensures |r| <= |store|
  {
    if store == [] then []
    else (if store[0].userId == owner then [store[0]] else []) + Owned(store[1..], owner)
  }

  lemma {:induction false} OwnedMembers(store: Store, owner: string)
    ensures forall x :: x in Owned(store, owner) <==> x in store && x.userId == owner
  {
    if store != [] {
      OwnedMembers(store[1..], owner);
      assert store == [store[0]] + store[1..];
    }
  }

  /** Newest first: `createdAt` never increases along the sequence. */
  predicate NewestFirst(s: seq<Report>)
  {
    forall i, j :: 0 <= i < j < |s| ==> s[i].createdAt >= s[j].createdAt
  }

  /** Places `r` into a sequence before the first report that is not newer
      than it. */
  function Insert(r: Report, s: seq<Report>): (res: seq<Report>)
    ensures multiset(res) == multiset(s) + multiset{r}
  {
    if s == [] then [r]
    else if r.createdAt >= s[0].createdAt then [r] + s
    else
      assert s == [s[0]] + s[1..];
      [s[0]] + Insert(r, s[1..])
  }

  /** Inserting into a newest-first sequence keeps it newest first. */
  lemma {:induction false} InsertSorted(r: Report, s: seq<Report>)
    requires NewestFirst(s)
    ensures NewestFirst(Insert(r, s))
  {
    if s == [] {
    } else if r.createdAt >= s[0].createdAt {
      assert forall k :: 0 <= k < |s| ==> s[k].createdAt <= r.createdAt by {
        forall k | 0 < k < |s| ensures s[k].createdAt <= s[0].createdAt { }
      }
      ConsSorted(r, s);
    } else {
      var rest := Insert(r, s[1..]);
      TailSorted(s);
      InsertSorted(r, s[1..]);
      forall k | 0 <= k < |rest| ensures rest[k].createdAt <= s[0].createdAt {
        assert rest[k] in multiset(rest);
        NotNewerThanHead(r, s, rest[k]);
      }
      ConsSorted(s[0], rest);
    }
  }

  /** A report no older than any of a newest-first sequence can go in front. */
  lemma ConsSorted(x: Report, t: seq<Report>)
    requires NewestFirst(t)
    requires forall k :: 0 <= k < |t| ==> t[k].createdAt <= x.createdAt
    ensures NewestFirst([x] + t)
  {
    var res := [x] + t;
    forall i, j | 0 <= i < j < |res|
      ensures res[i].createdAt >= res[j].createdAt
    {
      assert res[j] == t[j - 1];
      if i > 0 {
        assert res[i] == t[i - 1];
      }
    }
  }

  lemma TailSorted(s: seq<Report>)
    requires s != [] && NewestFirst(s)
    ensures NewestFirst(s[1..])
  {
    var t := s[1..];
    forall i, j | 0 <= i < j < |t| ensures t[i].createdAt >= t[j].createdAt {
      assert t[i] == s[i + 1] && t[j] == s[j + 1];
    }
  }

  lemma NotNewerThanHead(r: Report, s: seq<Report>, x: Report)
    requires s != [] && NewestFirst(s) && r.createdAt < s[0].createdAt
    requires x in multiset(Insert(r, s[1..]))
    ensures x.createdAt <= s[0].createdAt
  {
    if x != r {
      assert x in multiset(s[1..]);
      var m :| 0 <= m < |s[1..]| && s[1..][m] == x;
      assert s[m + 1] == x;
    }
  }

  /** The reports ordered by `createdAt`, newest first; the same reports. */
  function SortNewestFirst(s: seq<Report>): (res: seq<Report>)
    ensures NewestFirst(res)
    ensures multiset(res) == multiset(s)
  {
    if s == [] then []
    else
      assert s == [s[0]] + s[1..];
      InsertSorted(s[0], SortNewestFirst(s[1..]));
      Insert(s[0], SortNewestFirst(s[1..]))
  }

  const ListLimit := 50

  /** `find({userId}).sort({createdAt: -1}).limit(50)`. */
  function ListReports(store: Store, owner: string): (r: seq<Report>)
    ensures forall x :: x in r ==> x in store && x.userId == owner
    ensures NewestFirst(r)
    ensures |r| == if |Owned(store, owner)| < ListLimit then |Owned(store, owner)| else ListLimit
    ensures multiset(r) <= multiset(Owned(store, owner))
    ensures forall x :: x in store && x.userId == owner && x !in r ==>
      forall k :: 0 <= k < |r| ==> x.createdAt <= r[k].createdAt
  {
    var owned := Owned(store, owner);
    var sorted := SortNewestFirst(owned);
    OwnedMembers(store, owner);
    SameMultiset(owned, sorted);
    var n := if |sorted| <= ListLimit then |sorted| else ListLimit;
    TakeNewest(sorted, n);
    assert sorted == sorted[..n] + sorted[n..];
    sorted[..n]
  }

  /** Two sequences with the same multiset have the same length and members. */
  lemma SameMultiset(a: seq<Report>, b: seq<Report>)
    requires multiset(a) == multiset(b)
    ensures |a| == |b|
    ensures forall x :: x in a <==> x in b
  {
    assert |multiset(a)| == |multiset(b)|;
    forall x
      ensures x in a <==> x in b
    {
      assert x in a <==> x in multiset(a);
      assert x in b <==> x in multiset(b);
    }
  }

  /** The first `n` of a newest-first sequence are newest first, and nothing
      left behind is newer than any of them. */
  lemma TakeNewest(s: seq<Report>, n: nat)
    requires n <= |s| && NewestFirst(s)
    ensures NewestFirst(s[..n])
    ensures forall x :: x in s[..n] ==> x in s
    ensures forall x :: x in s && x !in s[..n] ==>
      forall k :: 0 <= k < n ==> x.createdAt <= s[..n][k].createdAt
  {
    forall x | x in s && x !in s[..n]
      ensures forall k :: 0 <= k < n ==> x.createdAt <= s[..n][k].createdAt
    {
      var m :| 0 <= m < |s| && s[m] == x;
      assert forall k :: 0 <= k < n ==> s[..n][k] == s[k];
      forall k | 0 <= k < n
        ensures x.createdAt <= s[..n][k].createdAt
      {
        assert s[..n][k] == s[k];
      }
    }
  }

  /** `findOne({_id: id, userId: owner})`: the first report with that id and
      owner. */
  function GetReport(store: Store, owner: string, id: string): (r: Option<Report>)
    ensures r.Some? <==> exists k :: 0 <= k < |store| && store[k].id == id && store[k].userId == owner
    ensures r.Some? ==> r.value in store && r.value.id == id && r.value.userId == owner
  {
    if store == [] then None
    else if store[0].id == id && store[0].userId == owner then Some(store[0])
    else
      var rest := GetReport(store[1..], owner, id);
      assert (exists k :: 0 <= k < |store| && store[k].id == id && store[k].userId == owner)
        <==> (exists k :: 0 <= k < |store[1..]| && store[1..][k].id == id && store[1..][k].userId == owner) by {
        if exists k :: 0 <= k < |store| && store[k].id == id && store[k].userId == owner {
          var k :| 0 <= k < |store| && store[k].id == id && store[k].userId == owner;
          assert k > 0 && store[1..][k - 1] == store[k];
        }
        if exists k :: 0 <= k < |store[1..]| && store[1..][k].id == id && store[1..][k].userId == owner {
          var k :| 0 <= k < |store[1..]| && store[1..][k].id == id && store[1..][k].userId == owner;
          assert store[k + 1] == store[1..][k];
        }
      }
      rest
  }

  /** Ownership isolation: a report of another owner is not found, exactly as
      an id that does not exist. */
  lemma OthersReportsAreNotFound(store: Store, owner: string, id: string, missing: string)
    requires forall k :: 0 <= k < |store| ==> store[k].id == id ==> store[k].userId != owner
    requires forall k :: 0 <= k < |store| ==> store[k].id != missing
    ensures GetReport(store, owner, id) == GetReport(store, owner, missing) == None
  {
  }

  /** What the caller can list or get depends on the caller's own reports
      only. */
  lemma ReadsSeeOnlyOwnReports(s1: Store, s2: Store, owner: string, id: string)
    requires Owned(s1, owner) == Owned(s2, owner)
    ensures ListReports(s1, owner) == ListReports(s2, owner)
    ensures GetReport(s1, owner, id) == GetReport(s2, owner, id)
  {
    GetThroughOwned(s1, owner, id);
    GetThroughOwned(s2, owner, id);
  }

  lemma {:induction false} GetThroughOwned(store: Store, owner: string, id: string)
    ensures GetReport(store, owner, id) == GetReport(Owned(store, owner), owner, id)
  {
    if store != [] {
      var tail := Owned(store[1..], owner);
      GetThroughOwned(store[1..], owner, id);
      if store[0].userId == owner {
        assert Owned(store, owner) == [store[0]] + tail;
        assert ([store[0]] + tail)[0] == store[0] && ([store[0]] + tail)[1..] == tail;
      } else {
        assert Owned(store, owner) == [] + tail == tail;
      }
    }
  }

  /** The position of the first report with that id and owner. */
  function FindIndex(store: Store, owner: string, id: string): (r: Option<nat>)
    ensures r.Some? ==> r.value < |store| && store[r.value].id == id && store[r.value].userId == owner
    ensures r.Some? ==> forall k :: 0 <= k < r.value ==> !(store[k].id == id && store[k].userId == owner)
    ensures r.None? ==> forall k :: 0 <= k < |store| ==> !(store[k].id == id && store[k].userId == owner)
  {
    if store == [] then None
    else if store[0].id == id && store[0].userId == owner then Some(0)
    else
      match FindIndex(store[1..], owner, id)
      case None => None
      case Some(k) => Some(k + 1)
  }

  /** `findOneAndDelete({_id: id, userId: owner})`: the removed report and the
      store without it; nothing and the same store when none matches. */
  function DeleteReport(store: Store, owner: string, id: string): (r: (Option<Report>, Store))
    ensures r.0.None? <==> GetReport(store, owner, id).None?
    ensures r.0.None? ==> r.1 == store
    ensures r.0.Some? ==> r.0 == GetReport(store, owner, id)
    ensures r.0.Some? ==> exists k :: 0 <= k < |store| && store[k] == r.0.value && r.1 == store[..k] + store[k + 1..]
  {
    match FindIndex(store, owner, id)
    case None => (None, store)
    case Some(k) =>
      GetIsFirstMatch(store, owner, id);
      (Some(store[k]), store[..k] + store[k + 1..])
  }

  lemma {:induction false} GetIsFirstMatch(store: Store, owner: string, id: string)
    ensures match FindIndex(store, owner, id)
      case None => GetReport(store, owner, id).None?
      case Some(k) => GetReport(store, owner, id) == Some(store[k])
  {
    if store != [] && !(store[0].id == id && store[0].userId == owner) {
      GetIsFirstMatch(store[1..], owner, id);
    }
  }

  predicate Matches(r: Report, owner: string, id: string)
  {
    r.id == id && r.userId == owner
  }

  /** The store with every report of that id and owner taken out. */
  function Without(store: Store, owner: string, id: string): (r: Store)
    ensures |r| <= |store|
  {
    if store == [] then []
    else (if Matches(store[0], owner, id) then [] else [store[0]]) + Without(store[1..], owner, id)
  }

  lemma {:induction false} WithoutMembers(store: Store, owner: string, id: string)
    ensures forall x :: x in Without(store, owner, id) <==> x in store && !Matches(x, owner, id)
  {
    if store != [] {
      WithoutMembers(store[1..], owner, id);
      assert store == [store[0]] + store[1..];
    }
  }

  lemma {:induction false} WithoutNoMatch(store: Store, owner: string, id: string)
    requires forall i :: 0 <= i < |store| ==> !Matches(store[i], owner, id)
    ensures Without(store, owner, id) == store
  {
    if store != [] {
      WithoutNoMatch(store[1..], owner, id);
      assert [store[0]] + store[1..] == store;
    }
  }

  /** With unique ids, taking out the first match takes out every match. */
  lemma {:induction false} RemoveFirstIsWithout(store: Store, owner: string, id: string)
    requires UniqueIds(store)
    ensures match FindIndex(store, owner, id)
      case None => Without(store, owner, id) == store
      case Some(k) => Without(store, owner, id) == store[..k] + store[k + 1..]
  {
    if store == [] {
    } else if Matches(store[0], owner, id) {
      NoMatchAfterFirst(store, owner, id);
      WithoutNoMatch(store[1..], owner, id);
    } else {
      var tail := store[1..];
      TailUniqueIds(store);
      RemoveFirstIsWithout(tail, owner, id);
      match FindIndex(tail, owner, id)
      case None =>
        assert [store[0]] + tail == store;
      case Some(k) =>
        ConsRemoveAt(store, k);
    }
  }

  lemma TailUniqueIds(store: Store)
    requires store != [] && UniqueIds(store)
    ensures UniqueIds(store[1..])
  {
    var tail := store[1..];
    assert forall i :: 0 <= i < |tail| ==> tail[i] == store[i + 1];
  }

  /** With unique ids, nothing after a match matches the same id. */
  lemma NoMatchAfterFirst(store: Store, owner: string, id: string)
    requires store != [] && UniqueIds(store) && Matches(store[0], owner, id)
    ensures forall k :: 0 <= k < |store[1..]| ==> !Matches(store[1..][k], owner, id)
  {
    assert forall i :: 0 <= i < |store[1..]| ==> store[1..][i] == store[i + 1];
  }

  /** Taking out position `k + 1` of a sequence keeps its head in front of
      the tail with position `k` taken out. */
  lemma ConsRemoveAt(s: Store, k: nat)
    requires k + 1 < |s|
    ensures s[..k + 1] + s[k + 2..] == [s[0]] + (s[1..][..k] + s[1..][k + 1..])
  {
    assert s[..k + 1] == [s[0]] + s[1..][..k];
    assert s[k + 2..] == s[1..][k + 1..];
  }

  /** With unique ids, deleting removes exactly the matching report: the new
      store is the old one with that report taken out, in the same order. */
  lemma DeleteIsWithout(store: Store, owner: string, id: string)
    requires UniqueIds(store)
    ensures DeleteReport(store, owner, id).1 == Without(store, owner, id)
  {
    RemoveFirstIsWithout(store, owner, id);
  }

  /** Delete touches nobody else's reports: a report survives exactly when it
      is not the caller's report with that id. */
  lemma DeleteFrame(store: Store, owner: string, id: string)
    requires UniqueIds(store)
    ensures var after := DeleteReport(store, owner, id).1;
      forall x: Report :: x in after <==> x in store && !(x.id == id && x.userId == owner)
  {
    DeleteIsWithout(store, owner, id);
    WithoutMembers(store, owner, id);
  }

  /** Delete keeps ids unique. */
  lemma DeleteKeepsUniqueIds(store: Store, owner: string, id: string)
    requires UniqueIds(store)
    ensures UniqueIds(DeleteReport(store, owner, id).1)
  {
    var (removed, after) := DeleteReport(store, owner, id);
    if removed.Some? {
      var k :| 0 <= k < |store| && store[k] == removed.value && after == store[..k] + store[k + 1..];
      RemoveAtKeepsUniqueIds(store, k);
    }
  }

  /** Removing one position keeps ids unique. */
  lemma RemoveAtKeepsUniqueIds(store: Store, k: nat)
    requires UniqueIds(store) && k < |store|
    ensures UniqueIds(store[..k] + store[k + 1..])
  {
    var after := store[..k] + store[k + 1..];
    forall i, j | 0 <= i < j < |after|
      ensures after[i].id != after[j].id
    {
      var i' := if i < k then i else i + 1;
      var j' := if j < k then j else j + 1;
      assert after[i] == store[i'] && after[j] == store[j'];
    }
  }

  /** After a delete, the same caller no longer finds that id. */
  lemma DeletedIsGone(store: Store, owner: string, id: string)
    requires UniqueIds(store)
    ensures GetReport(DeleteReport(store, owner, id).1, owner, id).None?
  {
    var after := DeleteReport(store, owner, id).1;
    DeleteFrame(store, owner, id);
    assert forall j :: 0 <= j < |after| ==> after[j] in after;
  }

  // ---------------------------------------------------------------------------
  // Routes
  // ---------------------------------------------------------------------------

  /** A JSON response: the payload, or an HTTP status with its error. */
  datatype Reply<T> = Ok(data: T) | Fail(status: nat, error: string)

  const NotFoundMessage := "Report not found"
  const DeletedMessage := "Report deleted successfully"

  /** Server `GET /`: the caller's list, 500 when the database fails. */
  function ServerList(gate: Gate, dbOk: bool, store: Store): (r: Reply<seq<Report>>)
    ensures gate.Reject401? ==> r == Fail(401, "Authentication required")
    ensures gate.Proceed? && !dbOk ==> r == Fail(500, "Failed to fetch reports")
    ensures r.Ok? <==> gate.Proceed? && dbOk
    ensures r.Ok? ==> r.data == ListReports(store, gate.user.userId)
  {
    match gate
    case Reject401 => Fail(401, "Authentication required")
    case Proceed(user) =>
      if !dbOk then Fail(500, "Failed to fetch reports") else Ok(ListReports(store, user.userId))
  }

  /** Server `GET /:id`: the caller's report with that id, or 404. */
  function ServerGet(gate: Gate, dbOk: bool, store: Store, id: string): (r: Reply<Report>)
    ensures gate.Reject401? ==> r == Fail(401, "Authentication required")
    ensures gate.Proceed? && !dbOk ==> r == Fail(500, "Failed to fetch report")
    ensures r.Ok? ==> r.data in store && r.data.id == id && r.data.userId == gate.user.userId
    ensures gate.Proceed? && dbOk ==>
      (r == Fail(404, NotFoundMessage) <==> GetReport(store, gate.user.userId, id).None?)
    ensures gate.Proceed? && dbOk && GetReport(store, gate.user.userId, id).Some? ==>
      r == Ok(GetReport(store, gate.user.userId, id).value)
  {
    match gate
    case Reject401 => Fail(401, "Authentication required")
    case Proceed(user) =>
      if !dbOk then Fail(500, "Failed to fetch report")
      else
        match GetReport(store, user.userId, id)
        case None => Fail(404, NotFoundMessage)
        case Some(report) => Ok(report)
  }

  /** Server `DELETE /:id`: removes the caller's report with that id. Only a
      successful delete changes the store. */
  function ServerDelete(gate: Gate, dbOk: bool, store: Store, id: string): (r: (Reply<string>, Store))
    ensures gate.Reject401? ==> r == (Fail(401, "Authentication required"), store)
    ensures gate.Proceed? && !dbOk ==> r == (Fail(500, "Failed to delete report"), store)
    ensures gate.Proceed? && dbOk && GetReport(store, gate.user.userId, id).None? ==>
      r == (Fail(404, NotFoundMessage), store)
    ensures r.0.Ok? <==> gate.Proceed? && dbOk && GetReport(store, gate.user.userId, id).Some?
    ensures r.0.Ok? ==> r.0.data == DeletedMessage && r.1 == DeleteReport(store, gate.user.userId, id).1
    ensures !r.0.Ok? ==> r.1 == store
  {
    match gate
    case Reject401 => (Fail(401, "Authentication required"), store)
    case Proceed(user) =>
      if !dbOk then (Fail(500, "Failed to delete report"), store)
      else
        var (removed, after) := DeleteReport(store, user.userId, id);
        if removed.None? then (Fail(404, NotFoundMessage), store)
        else (Ok(DeletedMessage), after)
  }

  /** Next.js `GET`: 401 before the store is touched; otherwise the caller's
      list. Excluding `chatHistory` changes nothing, as reports have no such
      field. */
  function NextList(user: Option<Payload>, dbOk: bool, store: Store): (r: Reply<seq<Report>>)
    ensures user.None? ==> r == Fail(401, "Unauthorized")
    ensures user.Some? && !dbOk ==> r == Fail(500, "Failed to fetch reports")
    ensures r.Ok? <==> user.Some? && dbOk
    ensures r.Ok? ==> r.data == ListReports(store, user.value.userId)
  {
    match user
    case None => Fail(401, "Unauthorized")
    case Some(u) =>
      if !dbOk then Fail(500, "Failed to fetch reports") else Ok(ListReports(store, u.userId))
  }

  /** Next.js `DELETE ?id=`: 401, then 400 for a missing or empty id, both
      before the store is touched; then as the server's delete. */
  function NextDelete(user: Option<Payload>, idParam: Option<string>, dbOk: bool, store: Store): (r: (Reply<string>, Store))
    ensures user.None? ==> r == (Fail(401, "Unauthorized"), store)
    ensures user.Some? && (idParam.None? || idParam.value == "") ==> r == (Fail(400, "Report ID is required"), store)
    ensures user.Some? && idParam.Some? && idParam.value != "" && !dbOk ==>
      r == (Fail(500, "Failed to delete report"), store)
    ensures (user.Some? && idParam.Some? && idParam.value != "" && dbOk
             && GetReport(store, user.value.userId, idParam.value).None?) ==>
      r == (Fail(404, NotFoundMessage), store)
    ensures r.0.Ok? <==>
      (user.Some? && idParam.Some? && idParam.value != "" && dbOk
       && GetReport(store, user.value.userId, idParam.value).Some?)
    ensures r.0.Ok? ==> r.0.data == DeletedMessage && r.1 == DeleteReport(store, user.value.userId, idParam.value).1
    ensures !r.0.Ok? ==> r.1 == store
  {
    match user
    case None => (Fail(401, "Unauthorized"), store)
    case Some(u) =>
      if idParam.None? || idParam.value == "" then (Fail(400, "Report ID is required"), store)
      else if !dbOk then (Fail(500, "Failed to delete report"), store)
      else
        var (removed, after) := DeleteReport(store, u.userId, idParam.value);
        if removed.None? then (Fail(404, NotFoundMessage), store)
        else (Ok(DeletedMessage), after)
  }

  /** The routes agree with each other: once the server has deleted a
      report, the same caller's get for that id is a 404, while a get before
      the delete returned the report. */
  lemma ServerDeleteThenGet(gate: Gate, store: Store, id: string)
    requires UniqueIds(store)
    requires ServerDelete(gate, true, store, id).0.Ok?
    ensures ServerGet(gate, true, store, id).Ok?
    ensures ServerGet(gate, true, ServerDelete(gate, true, store, id).1, id) == Fail(404, NotFoundMessage)
  {
    DeletedIsGone(store, gate.user.userId, id);
  }
}
