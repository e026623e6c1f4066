/** The admin panel of frontend/src/pages/AdminPanelPage.tsx: the list of access
    requests with its search and status filter, the status counters, the approve and
    reject actions offered per row, the confirmation that writes the new status, and the
    "time ago" label of a request. */
module Admin {
  import opened Wrappers
  import opened Text

  /** `"pending" | "approved" | "rejected"`. */
  datatype Status = Pending | Approved | Rejected

  /** A row of `user_request` as the panel reads it; `createdAt` is only displayed. */
  datatype UserRequest = UserRequest(
    id: string,
    fullName: string,
    email: string,
    reason: string,
    status: Status,
    createdAt: string)

  /** `filterStatus`: `"all"` or one status. */
  datatype Filter = All | Only(status: Status)

  /** `actionType`. */
  datatype Action = Approve | Reject

  datatype Panel = Panel(
    users: seq<UserRequest>,
    searchQuery: string,
    filterStatus: Filter,
    selectedUser: Option<UserRequest>,
    actionType: Option<Action>)

  function Initial(): Panel
  {
    Panel([], "", All, None, None)
  }

  /** The search half of the filter: the lower-cased name or email contains the
      lower-cased query (lower-casing is ASCII only, see `Text.Lower`). */
  predicate MatchesSearch(u: UserRequest, query: string)
  {
    Contains(Lower(u.fullName), Lower(query)) || Contains(Lower(u.email), Lower(query))
  }

  predicate MatchesFilter(u: UserRequest, filter: Filter)
  {
    filter.All? || u.status == filter.status
  }

  /** `filteredUsers`. */
  function FilteredUsers(users: seq<UserRequest>, query: string, filter: Filter): (r: seq<UserRequest>)
    ensures |r| <= |users|
  {
    if users == [] then []
    else
      var rest := FilteredUsers(users[1..], query, filter);
      if MatchesSearch(users[0], query) && MatchesFilter(users[0], filter) then [users[0]] + rest else rest
  }

  /** `a` is `b` with some elements dropped, the rest kept in order. */
  predicate SubsequenceOf(a: seq<UserRequest>, b: seq<UserRequest>)
    decreases |b|
  {
    if a == [] then true
    else if b == [] then false
    else (a[0] == b[0] && SubsequenceOf(a[1..], b[1..])) || SubsequenceOf(a, b[1..])
  }

  /** A request is listed exactly when it is in the list and matches both the search
      and the status filter. */
  lemma {:induction false} FilteredMembership(users: seq<UserRequest>, query: string, filter: Filter, u: UserRequest)
    ensures u in FilteredUsers(users, query, filter) <==>
      u in users && MatchesSearch(u, query) && MatchesFilter(u, filter)
  {
    if users != [] {
      FilteredMembership(users[1..], query, filter, u);
      assert users == [users[0]] + users[1..];
    }
  }

  /** The list shown keeps the order of the fetched list. */
  lemma {:induction false} FilteredIsSubsequence(users: seq<UserRequest>, query: string, filter: Filter)
    ensures SubsequenceOf(FilteredUsers(users, query, filter), users)
  {
    if users != [] {
      FilteredIsSubsequence(users[1..], query, filter);
    }
  }

  /** With an empty search and "All Status" every fetched request is listed. */
  lemma {:induction false} FilteredEverything(users: seq<UserRequest>)
    ensures FilteredUsers(users, "", All) == users
  {
    if users != [] {
      ContainsEmpty(Lower(users[0].fullName));
      assert Lower("") == "";
      FilteredEverything(users[1..]);
      assert users == [users[0]] + users[1..];
    }
  }

  /** `users.filter((u) => u.status === s).length`. */
  function CountStatus(users: seq<UserRequest>, s: Status): (n: nat)
    ensures n <= |users|
  {
    if users == [] then 0
    else (if users[0].status == s then 1 else 0) + CountStatus(users[1..], s)
  }

  /** The three counters cover every request once. */
  lemma {:induction false} CountsSum(users: seq<UserRequest>)
    ensures CountStatus(users, Pending) + CountStatus(users, Approved) + CountStatus(users, Rejected) == |users|
  {
    if users != [] {
      CountsSum(users[1..]);
    }
  }

  /** Each counter is the length of the list the matching filter shows for an empty
      search; `pendingCount` is the first of them. */
  lemma {:induction false} CountIsFilterLength(users: seq<UserRequest>, s: Status)
    ensures CountStatus(users, s) == |FilteredUsers(users, "", Only(s))|
  {
    if users != [] {
      ContainsEmpty(Lower(users[0].fullName));
      assert Lower("") == "";
      CountIsFilterLength(users[1..], s);
    }
  }

  /** The header banner: nothing when no request is pending, else "N pending request"
      with an "s" for more than one. */
  function PendingBanner(users: seq<UserRequest>): (r: Option<string>)
    ensures r.None? <==> CountStatus(users, Pending) == 0
  {
    var n := CountStatus(users, Pending);
    if n > 0 then Some(NatToString(n) + " pending request" + (if n > 1 then "s" else "")) else None
  }

  /** The banner shows the count's digits followed by the plural-aware noun. */
  lemma PendingBannerText(users: seq<UserRequest>)
    requires CountStatus(users, Pending) > 0
    ensures var b := PendingBanner(users).value;
      var d := NatToString(CountStatus(users, Pending));
      && b[..|d|] == d
      && (CountStatus(users, Pending) == 1 <==> b[|d|..] == " pending request")
  {
    var n := CountStatus(users, Pending);
    var d := NatToString(n);
    var b := PendingBanner(users).value;
    assert b == d + " pending request" + (if n > 1 then "s" else "");
    assert b[..|d|] == d;
    if n > 1 {
      assert b[|d|..] == " pending requests";
      assert |b[|d|..]| != |" pending request"|;
    }
  }

  /** `fetchUsers`: the list is replaced only by a reply without error that carries
      data. */
  datatype FetchReply = FetchReply(data: Option<seq<UserRequest>>, error: Option<string>)

  function FetchUsers(p: Panel, reply: FetchReply): (r: Panel)
    ensures r.users == (if reply.error.None? && reply.data.Some? then reply.data.value else p.users)
    ensures r.(users := p.users) == p
  {
    if reply.error.None? && reply.data.Some? then p.(users := reply.data.value) else p
  }

  /** `handleAction`: opens the confirmation for one request and one action. */
  function HandleAction(p: Panel, u: UserRequest, a: Action): (r: Panel)
    ensures DialogOpen(r) && r.selectedUser == Some(u) && r.actionType == Some(a)
    ensures r.users == p.users && r.searchQuery == p.searchQuery && r.filterStatus == p.filterStatus
  {
    p.(selectedUser := Some(u), actionType := Some(a))
  }

  /** The confirmation dialog is open while both a request and an action are chosen. */
  predicate DialogOpen(p: Panel)
  {
    p.selectedUser.Some? && p.actionType.Some?
  }

  /** `onOpenChange`: closing the dialog forgets the request (the action stays). */
  function DismissDialog(p: Panel): (r: Panel)
    ensures !DialogOpen(r) && r.actionType == p.actionType
  {
    p.(selectedUser := None)
  }

  /** `newStatus`. */
  function NewStatus(a: Action): (s: Status)
    ensures s != Pending
  {
    if a == Approve then Approved else Rejected
  }

  /** The update `confirmAction` sends: the row's id and its new status. */
  datatype StatusUpdate = StatusUpdate(id: string, status: Status)

  datatype ConfirmResult = ConfirmResult(update: Option<StatusUpdate>, refetch: bool, panel: Panel)

  /** `confirmAction`: without both a request and an action nothing happens; otherwise
      the status is written, the list is fetched again when the store reports no
      error, and the selection is cleared either way. `updateError` is the store's
      answer. */
  function ConfirmAction(p: Panel, updateError: Option<string>): (r: ConfirmResult)
    ensures !DialogOpen(p) ==> r == ConfirmResult(None, false, p)
    ensures DialogOpen(p) ==>
      && r.update == Some(StatusUpdate(p.selectedUser.value.id, NewStatus(p.actionType.value)))
      && (r.refetch <==> updateError.None?)
      && r.panel == p.(selectedUser := None, actionType := None)
  {
    if p.selectedUser.None? || p.actionType.None? then ConfirmResult(None, false, p)
    else
      var u := p.selectedUser.value;
      ConfirmResult(Some(StatusUpdate(u.id, NewStatus(p.actionType.value))), updateError.None?, p.(selectedUser := None, actionType := None))
  }

  /** The store's side of the update: every row with that id takes the new status. */
  function ApplyUpdate(rows: seq<UserRequest>, up: StatusUpdate): (r: seq<UserRequest>)
    ensures |r| == |rows|
    ensures forall i :: 0 <= i < |rows| ==>
      r[i] == (if rows[i].id == up.id then rows[i].(status := up.status) else rows[i])
  {
    seq(|rows|, i requires 0 <= i < |rows| => if rows[i].id == up.id then rows[i].(status := up.status) else rows[i])
  }

  /** Choosing an action on a row and confirming it, when the store accepts the update
      and the refetch returns the store's rows, leaves that request with "approved" for
      approve and "rejected" for reject, every other request as it was, and no dialog
      open. */
  lemma ApproveOrRejectLands(p: Panel, u: UserRequest, a: Action, store: seq<UserRequest>)
    ensures var c := ConfirmAction(HandleAction(p, u, a), None);
      && c.update.Some? && c.refetch && !DialogOpen(c.panel)
      && var fetched := ApplyUpdate(store, c.update.value);
      && var q := FetchUsers(c.panel, FetchReply(Some(fetched), None));
      && (forall i :: 0 <= i < |q.users| && q.users[i].id == u.id ==>
            q.users[i].status == (if a == Approve then Approved else Rejected))
      && (forall i :: 0 <= i < |q.users| && store[i].id != u.id ==> q.users[i] == store[i])
  {
  }

  /** A dismissed dialog can no longer be confirmed. */
  lemma DismissedConfirmsNothing(p: Panel, updateError: Option<string>)
    ensures ConfirmAction(DismissDialog(p), updateError).update.None?
  {
  }

  /** A row's menu entry: its label and the action it starts. */
  datatype Offer = Offer(caption: string, action: Action)

  /** The actions offered on a row: Approve and Reject for a pending request,
      Re-approve and Revoke Access for a decided one. */
  function OfferedActions(u: UserRequest): seq<Offer>
  {
    if u.status == Pending then [Offer("Approve", Approve), Offer("Reject", Reject)]
    else [Offer("Re-approve", Approve), Offer("Revoke Access", Reject)]
  }

  /** Every row offers one approving and one rejecting action; the plain
      "Approve"/"Reject" labels appear exactly on pending rows, and
      "Re-approve"/"Revoke Access" exactly on the others. */
  lemma OfferedActionsShape(u: UserRequest)
    ensures var o := OfferedActions(u);
      && |o| == 2 && o[0].action == Approve && o[1].action == Reject
      && (u.status == Pending <==> Offer("Approve", Approve) in o)
      && (u.status == Pending <==> Offer("Reject", Reject) in o)
      && (u.status != Pending <==> Offer("Re-approve", Approve) in o)
      && (u.status != Pending <==> Offer("Revoke Access", Reject) in o)
  {
    var o := OfferedActions(u);
    if u.status != Pending {
      assert o[0].caption != "Approve" by { assert |o[0].caption| != |"Approve"|; }
      assert o[1].caption != "Approve" by { assert o[1].action != Approve; }
      assert o[1].caption != "Reject" by { assert |o[1].caption| != |"Reject"|; }
    } else {
      assert o[0].caption != "Re-approve" by { assert |o[0].caption| != |"Re-approve"|; }
      assert o[1].caption != "Revoke Access" by { assert |o[1].caption| != |"Revoke Access"|; }
    }
  }

  /** The bucket `formatTimeAgo` puts an elapsed time in. */
  datatype TimeAgo = JustNow | MinutesAgo(minutes: nat) | HoursAgo(hours: nat) | DaysAgo(days: nat)

  const MS_PER_SECOND: int := 1000
  const MS_PER_MINUTE: int := 60000
  const MS_PER_HOUR: int := 3600000
  const MS_PER_DAY: int := 86400000

  /** The nested floor divisions of `formatTimeAgo` on the elapsed milliseconds
      `Date.now() - date.getTime()`, which may be negative for a date in the future.
      Dafny's `/` by a positive divisor rounds down, as `Math.floor` does. */
  function Bucket(elapsedMs: int): TimeAgo
  {
    var seconds := elapsedMs / 1000;
    if seconds < 60 then JustNow
    else
      var minutes := seconds / 60;
      if minutes < 60 then MinutesAgo(minutes)
      else
        var hours := minutes / 60;
        if hours < 24 then HoursAgo(hours)
        else DaysAgo(hours / 24)
  }

  /** The buckets in plain terms: "just now" below one minute, negative times
      included; whole minutes below an hour; whole hours below a day; whole days from
      then on, each count rounded down. */
  lemma BucketRanges(elapsedMs: int)
    ensures Bucket(elapsedMs) == JustNow <==> elapsedMs < MS_PER_MINUTE
    ensures Bucket(elapsedMs).MinutesAgo? <==> MS_PER_MINUTE <= elapsedMs < MS_PER_HOUR
    ensures Bucket(elapsedMs).HoursAgo? <==> MS_PER_HOUR <= elapsedMs < MS_PER_DAY
    ensures Bucket(elapsedMs).DaysAgo? <==> MS_PER_DAY <= elapsedMs
    ensures Bucket(elapsedMs).MinutesAgo? ==>
      Bucket(elapsedMs).minutes == elapsedMs / MS_PER_MINUTE && 1 <= Bucket(elapsedMs).minutes < 60
    ensures Bucket(elapsedMs).HoursAgo? ==>
      Bucket(elapsedMs).hours == elapsedMs / MS_PER_HOUR && 1 <= Bucket(elapsedMs).hours < 24
    ensures Bucket(elapsedMs).DaysAgo? ==>
      Bucket(elapsedMs).days == elapsedMs / MS_PER_DAY && Bucket(elapsedMs).days >= 1
  {
    var seconds := elapsedMs / 1000;
    var minutes := seconds / 60;
    var hours := minutes / 60;
    assert minutes == elapsedMs / MS_PER_MINUTE;
    assert hours == elapsedMs / MS_PER_HOUR;
    assert hours / 24 == elapsedMs / MS_PER_DAY;
  }

  /** The text of a bucket. */
  function Render(t: TimeAgo): string
  {
    match t
    case JustNow => "Just now"
    case MinutesAgo(m) => NatToString(m) + "m ago"
    case HoursAgo(h) => NatToString(h) + "h ago"
    case DaysAgo(d) => NatToString(d) + "d ago"
  }

  /** `formatTimeAgo`. */
  function FormatTimeAgo(elapsedMs: int): string
  {
    Render(Bucket(elapsedMs))
  }

  /** Distinct buckets read differently, so the label determines the bucket. */
  lemma RenderInjective(a: TimeAgo, b: TimeAgo)
    requires Render(a) == Render(b)
    ensures a == b
  {
    if a.JustNow? && !b.JustNow? {
      CountNotJustNow(b);
    } else if !a.JustNow? && b.JustNow? {
      CountNotJustNow(a);
    } else if !a.JustNow? {
      var na := match a case MinutesAgo(m) => m case HoursAgo(h) => h case DaysAgo(n) => n case JustNow => 0;
      var nb := match b case MinutesAgo(m) => m case HoursAgo(h) => h case DaysAgo(n) => n case JustNow => 0;
      var ua := Render(a)[|NatToString(na)|..];
      var ub := Render(b)[|NatToString(nb)|..];
      assert Render(a) == NatToString(na) + ua && ua[0] in "mhd";
      assert Render(b) == NatToString(nb) + ub && ub[0] in "mhd";
      DigitsThenUnit(NatToString(na), ua, NatToString(nb), ub);
      NatToStringInjective(na, nb);
    }
  }

  /** A run of digits followed by a unit letter splits only one way. */
  lemma DigitsThenUnit(da: string, ua: string, db: string, ub: string)
    requires forall i :: 0 <= i < |da| ==> IsDigit(da[i])
    requires forall i :: 0 <= i < |db| ==> IsDigit(db[i])
    requires |ua| > 0 && !IsDigit(ua[0]) && |ub| > 0 && !IsDigit(ub[0])
    requires da + ua == db + ub
    ensures da == db && ua == ub
  {
    DigitRunOf(da, ua);
    DigitRunOf(db, ub);
    assert da == (da + ua)[..|da|] && db == (db + ub)[..|db|];
    assert ua == (da + ua)[|da|..] && ub == (db + ub)[|db|..];
  }

  /** The number of leading decimal digits of `s`. */
  function DigitRun(s: string): nat
  {
    if s == [] || !IsDigit(s[0]) then 0 else 1 + DigitRun(s[1..])
  }

  lemma {:induction false} DigitRunOf(d: string, u: string)
    requires forall i :: 0 <= i < |d| ==> IsDigit(d[i])
    requires |u| > 0 && !IsDigit(u[0])
    ensures DigitRun(d + u) == |d|
  {
    if d == [] {
      assert d + u == u;
    } else {
      assert (d + u)[1..] == d[1..] + u;
      DigitRunOf(d[1..], u);
    }
  }

  /** A count label starts with a digit, "Just now" does not. */
  lemma CountNotJustNow(t: TimeAgo)
    requires !t.JustNow?
    ensures Render(t) != "Just now"
  {
    var n := match t case MinutesAgo(m) => m case HoursAgo(h) => h case DaysAgo(d) => d case JustNow => 0;
    var d := NatToString(n);
    assert Render(t)[0] == d[0];
    assert IsDigit(d[0]);
    assert !IsDigit("Just now"[0]);
  }

  /** So two elapsed times get the same label exactly when they fall in the same
      bucket. */
  lemma FormatTimeAgoSameIff(a: int, b: int)
    ensures FormatTimeAgo(a) == FormatTimeAgo(b) <==> Bucket(a) == Bucket(b)
  {
    if FormatTimeAgo(a) == FormatTimeAgo(b) {
      RenderInjective(Bucket(a), Bucket(b));
    }
  }
}
