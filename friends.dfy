/** The friend-request lifecycle of `friend.controller.js`: a collection of `Friend`
    records, one per unordered pair of users, and each user's `friendCount`. */
module Friends {
  import opened Common

  datatype Status = Pending | Accepted | Declined

  datatype Friend = Friend(from: UserId, to: UserId, status: Status)

  /** The `AppError`s the handlers throw, by message. */
  datatype FriendError =
    | UserNotFound      // "User not found"
    | SentAlready       // "You have sent a request to this user"
    | ReceivedAlready   // "You have received a request from this user"
    | AlreadyFriend     // "Users are already friend"
    | StatusUndefined   // "Friend status undefined"
    | RequestNotFound   // "Request not found"
    | FriendNotFound    // "Friend not found"

  datatype Result<+T> = Ok(value: T) | Err(error: FriendError)

  /** The collection and the `friendCount` field of every existing user. */
  datatype Db = Db(records: seq<Friend>, friendCount: map<UserId, nat>)

  /** `f` joins `a` and `b`, in either direction. */
  predicate OfPair(f: Friend, a: UserId, b: UserId)
  {
    (f.from == a && f.to == b) || (f.from == b && f.to == a)
  }

  /** At most one record per unordered pair of users. */
  predicate OneRecordPerPair(fs: seq<Friend>)
  {
    forall i, j :: 0 <= i < j < |fs| ==> !OfPair(fs[j], fs[i].from, fs[i].to)
  }

  /** The filters the handlers pass to `Friend.findOne`. */
  datatype Query =
    | Between(a: UserId, b: UserId)                       // {$or: [{from: a, to: b}, {from: b, to: a}]}
    | Directed(from: UserId, to: UserId, status: Status)  // {from, to, status}
    | BetweenWith(a: UserId, b: UserId, status: Status)   // the $or above, and {status}

  predicate Matches(q: Query, f: Friend)
  {
    match q
    case Between(a, b) => OfPair(f, a, b)
    case Directed(from, to, status) => f.from == from && f.to == to && f.status == status
    case BetweenWith(a, b, status) => OfPair(f, a, b) && f.status == status
  }

  /** `Friend.findOne(q)`: the first matching record in store order. */
  function FindFirst(fs: seq<Friend>, q: Query): (r: Option<nat>)
    ensures r == None <==> forall j :: 0 <= j < |fs| ==> !Matches(q, fs[j])
    ensures r.Some? ==> r.value < |fs| && Matches(q, fs[r.value]) &&
                        forall j :: 0 <= j < r.value ==> !Matches(q, fs[j])
  {
    if fs == [] then None
    else if Matches(q, fs[0]) then Some(0)
    else match FindFirst(fs[1..], q)
      case None => None
      case Some(j) => Some(j + 1)
  }

  /** `f` is accepted and has `u` at one end: what `calculateFriendCount` counts. */
  function Weight(f: Friend, u: UserId): nat
  {
    if f.status == Accepted && (f.from == u || f.to == u) then 1 else 0
  }

  /** `calculateFriendCount`'s `countDocuments`: the accepted records with `u` at either end. */
  function CountAccepted(fs: seq<Friend>, u: UserId): nat
  {
    if fs == [] then 0 else CountAccepted(fs[..|fs| - 1], u) + Weight(fs[|fs| - 1], u)
  }

  /** Every stored `friendCount` equals the recount. */
  predicate CountsAgree(db: Db)
  {
    forall u :: u in db.friendCount ==> db.friendCount[u] == CountAccepted(db.records, u)
  }

  predicate Valid(db: Db)
  {
    OneRecordPerPair(db.records) && CountsAgree(db)
  }

  /** `calculateFriendCount(u)`: overwrite `u`'s `friendCount` with the recount; a user
      who does not exist is left alone (`findByIdAndUpdate` finds nothing). */
  function Recounted(db: Db, u: UserId): (r: Db)
    ensures r.records == db.records && r.friendCount.Keys == db.friendCount.Keys
    ensures u in r.friendCount ==> r.friendCount[u] == CountAccepted(db.records, u)
    ensures forall v :: v in db.friendCount && v != u ==> r.friendCount[v] == db.friendCount[v]
  {
    if u in db.friendCount then db.(friendCount := db.friendCount[u := CountAccepted(db.records, u)])
    else db
  }

  /** The endpoint of `f` that is not `me` (the `.map` projection of the list handlers). */
  function OtherSide(f: Friend, me: UserId): UserId
  {
    if f.from == me then f.to else f.from
  }

  /** The ids the list handlers collect from their records. */
  function OtherSides(fs: seq<Friend>, me: UserId): (r: seq<UserId>)
    ensures |r| == |fs|
    ensures forall i :: 0 <= i < |fs| && (fs[i].from == me || fs[i].to == me) ==> OfPair(fs[i], me, r[i])
    ensures forall i :: 0 <= i < |fs| ==> (r[i] == me <==> fs[i].from == me && fs[i].to == me)
  {
    if fs == [] then [] else [OtherSide(fs[0], me)] + OtherSides(fs[1..], me)
  }

  // ----- the switch on an existing record in sendFriendRequest -----

  /** What `sendFriendRequest` does with the record it found. */
  datatype SendStep = Overwrite | Refuse(error: FriendError)

  /** The string a status is stored as. */
  function StatusLabel(s: Status): string
  {
    match s
    case Pending => "pending"
    case Accepted => "accepted"
    case Declined => "declined"
  }

  /** The switch as written: its first case label is "pendind", which no stored status
      equals. */
  function SendStepAsWritten(stored: string, sentByCurrent: bool): SendStep
  {
    if stored == "pendind" then Refuse(if sentByCurrent then SentAlready else ReceivedAlready)
    else if stored == "accepted" then Refuse(AlreadyFriend)
    else if stored == "declined" then Overwrite
    else Refuse(StatusUndefined)
  }

  /** A pending record reaches the default case: "Friend status undefined". */
  lemma PendingFallsToDefault(sentByCurrent: bool)
    ensures SendStepAsWritten(StatusLabel(Pending), sentByCurrent) == Refuse(StatusUndefined)
  {
    assert StatusLabel(Pending) != "pendind" by { assert "pending"[6] != "pendind"[6]; }
    assert StatusLabel(Pending) != "accepted" by { assert "pending"[0] != "accepted"[0]; }
    assert StatusLabel(Pending) != "declined" by { assert "pending"[0] != "declined"[0]; }
  }

  /** The switch as intended: only a declined record may be superseded; a pending one is
      refused with the message that says who sent it. */
  function SendStepFor(status: Status, sentByCurrent: bool): (r: SendStep)
    ensures r == Overwrite <==> status == Declined
    ensures status == Pending ==> r == Refuse(if sentByCurrent then SentAlready else ReceivedAlready)
    ensures status == Accepted ==> r == Refuse(AlreadyFriend)
  {
    match status
    case Pending => Refuse(if sentByCurrent then SentAlready else ReceivedAlready)
    case Accepted => Refuse(AlreadyFriend)
    case Declined => Overwrite
  }

  /** The two switches differ only on a pending record, and both refuse it. */
  lemma SendStepAsWrittenAgrees(status: Status, sentByCurrent: bool)
    ensures status != Pending ==>
      SendStepAsWritten(StatusLabel(status), sentByCurrent) == SendStepFor(status, sentByCurrent)
    ensures SendStepAsWritten(StatusLabel(status), sentByCurrent).Refuse? <==>
            SendStepFor(status, sentByCurrent).Refuse?
  {
    match status
    case Pending => PendingFallsToDefault(sentByCurrent);
    case Accepted =>
      assert "accepted" != "pendind" by { assert "accepted"[0] != "pendind"[0]; }
    case Declined =>
      assert "declined" != "pendind" by { assert "declined"[0] != "pendind"[0]; }
      assert "declined" != "accepted" by { assert "declined"[0] != "accepted"[0]; }
  }

  // ----- the decision in reactFriendRequest -----

  /** The request body `{status}` that the route admits. */
  datatype RequestBody = RequestBody(status: Status)

  /** A JavaScript value as far as line 286 can tell them apart. */
  datatype JsValue = JsString(s: string) | JsObject(body: RequestBody)

  /** As written, `const status = req.body` is the whole body object, which is what is
      assigned to `friend.status`; the recount runs when it is the string "accepted". */
  function RecountsAsWritten(body: RequestBody): bool
  {
    JsObject(body) == JsString("accepted")
  }

  /** Accepting never reaches the recount as written. */
  lemma AcceptNeverRecountsAsWritten()
    ensures !RecountsAsWritten(RequestBody(Accepted))
  {
  }

  // ----- the four handlers as transitions -----

  /** `sendFriendRequest` from `cur` to `to`. */
  function Send(db: Db, cur: UserId, to: UserId): (Db, Result<Friend>)
  {
    var request := Friend(cur, to, Pending);
    if to !in db.friendCount then (db, Err(UserNotFound))
    else match FindFirst(db.records, Between(to, cur))
      case None => (db.(records := db.records + [request]), Ok(request))
      case Some(i) =>
        match SendStepFor(db.records[i].status, db.records[i].from == cur)
        case Overwrite => (db.(records := db.records[i := request]), Ok(request))
        case Refuse(e) => (db, Err(e))
  }

  /** `reactFriendRequest` by `cur` on the request from `requester`, with `decision`
      (accepted or declined). */
  function React(db: Db, cur: UserId, requester: UserId, decision: Status): (Db, Result<Friend>)
  {
    match FindFirst(db.records, Directed(requester, cur, Pending))
    case None => (db, Err(RequestNotFound))
    case Some(i) =>
      var answered := db.records[i].(status := decision);
      var db' := db.(records := db.records[i := answered]);
      if decision == Accepted then (Recounted(Recounted(db', cur), requester), Ok(answered))
      else (db', Ok(answered))
  }

  function Deleted(fs: seq<Friend>, i: nat): seq<Friend>
    requires i < |fs|
  {
    fs[..i] + fs[i + 1..]
  }

  /** `cancelFriendRequest` by `cur` of their pending request to `to`. */
  function Cancel(db: Db, cur: UserId, to: UserId): (Db, Result<Friend>)
  {
    match FindFirst(db.records, Directed(cur, to, Pending))
    case None => (db, Err(RequestNotFound))
    case Some(i) => (db.(records := Deleted(db.records, i)), Ok(db.records[i]))
  }

  /** `removeFriend` by `cur` of the friendship with `friendId`, in either direction. */
  function Remove(db: Db, cur: UserId, friendId: UserId): (Db, Result<Friend>)
  {
    match FindFirst(db.records, BetweenWith(cur, friendId, Accepted))
    case None => (db, Err(FriendNotFound))
    case Some(i) =>
      var db' := db.(records := Deleted(db.records, i));
      (Recounted(Recounted(db', cur), friendId), Ok(db.records[i]))
  }

  // ----- the count under single-record changes -----

  lemma {:induction false} CountConcat(a: seq<Friend>, b: seq<Friend>, u: UserId)
    ensures CountAccepted(a + b, u) == CountAccepted(a, u) + CountAccepted(b, u)
  {
    if b != [] {
      assert (a + b)[..|a + b| - 1] == a + b[..|b| - 1];
      CountConcat(a, b[..|b| - 1], u);
    } else {
      assert a + b == a;
    }
  }

  lemma CountSingle(x: Friend, u: UserId)
    ensures CountAccepted([x], u) == Weight(x, u)
  {
    assert [x][..0] == [];
  }

  lemma CountAppend(fs: seq<Friend>, x: Friend, u: UserId)
    ensures CountAccepted(fs + [x], u) == CountAccepted(fs, u) + Weight(x, u)
  {
    CountConcat(fs, [x], u);
    CountSingle(x, u);
  }

  /** Replacing one record changes the count by the difference of the two weights. */
  lemma CountReplace(fs: seq<Friend>, i: nat, x: Friend, u: UserId)
    requires i < |fs|
    ensures CountAccepted(fs[i := x], u) + Weight(fs[i], u) == CountAccepted(fs, u) + Weight(x, u)
  {
    assert fs == fs[..i] + [fs[i]] + fs[i + 1..];
    assert fs[i := x] == fs[..i] + [x] + fs[i + 1..];
    CountConcat(fs[..i] + [fs[i]], fs[i + 1..], u);
    CountConcat(fs[..i] + [x], fs[i + 1..], u);
    CountAppend(fs[..i], fs[i], u);
    CountAppend(fs[..i], x, u);
  }

  /** Deleting one record takes its weight off the count. */
  lemma CountDelete(fs: seq<Friend>, i: nat, u: UserId)
    requires i < |fs|
    ensures CountAccepted(Deleted(fs, i), u) + Weight(fs[i], u) == CountAccepted(fs, u)
  {
    assert fs == fs[..i] + [fs[i]] + fs[i + 1..];
    CountConcat(fs[..i] + [fs[i]], fs[i + 1..], u);
    CountConcat(fs[..i], fs[i + 1..], u);
    CountAppend(fs[..i], fs[i], u);
  }

  // ----- the pair invariant under single-record changes -----

  /** Under the invariant, a record joining `a` and `b` is the first such record. */
  lemma PairIsFirst(fs: seq<Friend>, i: nat, a: UserId, b: UserId)
    requires OneRecordPerPair(fs) && i < |fs| && OfPair(fs[i], a, b)
    ensures FindFirst(fs, Between(a, b)) == Some(i)
  {
  }

  lemma AppendKeepsPairs(fs: seq<Friend>, x: Friend)
    requires OneRecordPerPair(fs) && FindFirst(fs, Between(x.from, x.to)) == None
    ensures OneRecordPerPair(fs + [x])
  {
    var gs := fs + [x];
    forall i, j | 0 <= i < j < |gs| ensures !OfPair(gs[j], gs[i].from, gs[i].to) {
      if j == |fs| { assert !Matches(Between(x.from, x.to), fs[i]); }
    }
  }

  /** Rewriting a record in place with the same pair of users keeps the invariant. */
  lemma ReplaceKeepsPairs(fs: seq<Friend>, i: nat, x: Friend)
    requires OneRecordPerPair(fs) && i < |fs| && OfPair(x, fs[i].from, fs[i].to)
    ensures OneRecordPerPair(fs[i := x])
  {
    var gs := fs[i := x];
    forall a, b | 0 <= a < b < |gs| ensures !OfPair(gs[b], gs[a].from, gs[a].to) {
      assert !OfPair(fs[b], fs[a].from, fs[a].to);
    }
  }

  lemma DeleteKeepsPairs(fs: seq<Friend>, i: nat)
    requires OneRecordPerPair(fs) && i < |fs|
    ensures OneRecordPerPair(Deleted(fs, i))
  {
    var gs := Deleted(fs, i);
    forall a, b | 0 <= a < b < |gs| ensures !OfPair(gs[b], gs[a].from, gs[a].to) {
      assert gs[a] == fs[if a < i then a else a + 1];
      assert gs[b] == fs[if b < i then b else b + 1];
    }
  }

  /** After a deletion at the only record of the pair, no record joins the pair. */
  lemma DeleteLeavesNoPair(fs: seq<Friend>, i: nat, a: UserId, b: UserId)
    requires OneRecordPerPair(fs) && i < |fs| && OfPair(fs[i], a, b)
    ensures FindFirst(Deleted(fs, i), Between(a, b)) == None
  {
    var gs := Deleted(fs, i);
    forall j | 0 <= j < |gs| ensures !OfPair(gs[j], a, b) {
      var j' := if j < i then j else j + 1;
      assert gs[j] == fs[j'];
      if j' < i { assert !OfPair(fs[i], fs[j'].from, fs[j'].to); }
      else { assert !OfPair(fs[j'], fs[i].from, fs[i].to); }
    }
  }

  // ----- the records of one pair, and of every other pair -----

  /** The records joining `a` and `b`, in store order. */
  function PairRecords(fs: seq<Friend>, a: UserId, b: UserId): seq<Friend>
  {
    if fs == [] then []
    else PairRecords(fs[..|fs| - 1], a, b) + (if OfPair(fs[|fs| - 1], a, b) then [fs[|fs| - 1]] else [])
  }

  /** The records of every other pair, in store order. */
  function OtherPairs(fs: seq<Friend>, a: UserId, b: UserId): seq<Friend>
  {
    if fs == [] then []
    else OtherPairs(fs[..|fs| - 1], a, b) + (if OfPair(fs[|fs| - 1], a, b) then [] else [fs[|fs| - 1]])
  }

  lemma {:induction false} PairRecordsConcat(x: seq<Friend>, y: seq<Friend>, a: UserId, b: UserId)
    ensures PairRecords(x + y, a, b) == PairRecords(x, a, b) + PairRecords(y, a, b)
    ensures OtherPairs(x + y, a, b) == OtherPairs(x, a, b) + OtherPairs(y, a, b)
  {
    if y != [] {
      assert (x + y)[..|x + y| - 1] == x + y[..|y| - 1];
      PairRecordsConcat(x, y[..|y| - 1], a, b);
    } else {
      assert x + y == x;
    }
  }

  lemma PairRecordsSingle(f: Friend, a: UserId, b: UserId)
    ensures PairRecords([f], a, b) == (if OfPair(f, a, b) then [f] else [])
    ensures OtherPairs([f], a, b) == (if OfPair(f, a, b) then [] else [f])
  {
    assert [f][..0] == [];
  }

  lemma {:induction false} PairRecordsAbsent(fs: seq<Friend>, a: UserId, b: UserId)
    requires forall j :: 0 <= j < |fs| ==> !OfPair(fs[j], a, b)
    ensures PairRecords(fs, a, b) == []
  {
    if fs != [] { PairRecordsAbsent(fs[..|fs| - 1], a, b); }
  }

  /** Under the invariant, a pair has the record `findOne` locates, or none. */
  lemma {:induction false} PairRecordsUnique(fs: seq<Friend>, a: UserId, b: UserId)
    requires OneRecordPerPair(fs)
    ensures PairRecords(fs, a, b) == match FindFirst(fs, Between(a, b)) case None => [] case Some(i) => [fs[i]]
  {
    if FindFirst(fs, Between(a, b)) == None {
      PairRecordsAbsent(fs, a, b);
    } else {
      var i := FindFirst(fs, Between(a, b)).value;
      var front := fs[..|fs| - 1];
      if i == |fs| - 1 {
        PairRecordsAbsent(front, a, b);
      } else {
        assert !OfPair(fs[|fs| - 1], fs[i].from, fs[i].to);
        assert OneRecordPerPair(front);
        assert FindFirst(front, Between(a, b)) == Some(i) by {
          assert Matches(Between(a, b), front[i]);
          assert forall j :: 0 <= j < i ==> front[j] == fs[j];
        }
        PairRecordsUnique(front, a, b);
      }
    }
  }

  /** A change at index `i` to a record of the same pair leaves the other pairs' records. */
  lemma ReplaceKeepsOtherPairs(fs: seq<Friend>, i: nat, x: Friend, a: UserId, b: UserId)
    requires i < |fs| && OfPair(fs[i], a, b) && OfPair(x, a, b)
    ensures OtherPairs(fs[i := x], a, b) == OtherPairs(fs, a, b)
  {
    assert fs == fs[..i] + [fs[i]] + fs[i + 1..];
    assert fs[i := x] == fs[..i] + [x] + fs[i + 1..];
    PairRecordsConcat(fs[..i] + [fs[i]], fs[i + 1..], a, b);
    PairRecordsConcat(fs[..i] + [x], fs[i + 1..], a, b);
    PairRecordsConcat(fs[..i], [fs[i]], a, b);
    PairRecordsConcat(fs[..i], [x], a, b);
    PairRecordsSingle(fs[i], a, b);
    PairRecordsSingle(x, a, b);
  }

  lemma DeleteKeepsOtherPairs(fs: seq<Friend>, i: nat, a: UserId, b: UserId)
    requires i < |fs| && OfPair(fs[i], a, b)
    ensures OtherPairs(Deleted(fs, i), a, b) == OtherPairs(fs, a, b)
  {
    var front, f, back := fs[..i], fs[i], fs[i + 1..];
    assert fs == (front + [f]) + back;
    PairRecordsConcat(front + [f], back, a, b);
    AppendKeepsOtherPairs(front, f, a, b);
    PairRecordsConcat(front, back, a, b);
  }

  lemma AppendKeepsOtherPairs(fs: seq<Friend>, x: Friend, a: UserId, b: UserId)
    requires OfPair(x, a, b)
    ensures OtherPairs(fs + [x], a, b) == OtherPairs(fs, a, b)
  {
    PairRecordsConcat(fs, [x], a, b);
    PairRecordsSingle(x, a, b);
  }

  // ----- what each handler guarantees -----

  /** `sendFriendRequest` keeps one record per pair and every `friendCount` right. */
  lemma SendKeepsValid(db: Db, cur: UserId, to: UserId)
    requires Valid(db)
    ensures Valid(Send(db, cur, to).0) && Send(db, cur, to).0.friendCount == db.friendCount
  {
    var request := Friend(cur, to, Pending);
    if to in db.friendCount {
      var fs := db.records;
      match FindFirst(fs, Between(to, cur))
      case None =>
        AppendKeepsPairs(fs, request);
        forall u | u in db.friendCount ensures CountAccepted(fs + [request], u) == CountAccepted(fs, u) {
          CountAppend(fs, request, u);
        }
      case Some(i) =>
        if fs[i].status == Declined {
          ReplaceKeepsPairs(fs, i, request);
          forall u | u in db.friendCount ensures CountAccepted(fs[i := request], u) == CountAccepted(fs, u) {
            CountReplace(fs, i, request, u);
          }
        }
    }
  }

  /** The outcome of `sendFriendRequest` by the records of the pair: with none, one pending
      record from `cur` to `to` is created; a declined one is overwritten into it; a pending
      or accepted one refuses the request and changes nothing. Other pairs are untouched. */
  lemma SendOutcome(db: Db, cur: UserId, to: UserId)
    requires Valid(db)
    ensures var (db', r) := Send(db, cur, to);
      var request := Friend(cur, to, Pending);
      && OtherPairs(db'.records, cur, to) == OtherPairs(db.records, cur, to)
      && (to !in db.friendCount ==> db' == db && r == Err(UserNotFound))
      && (to in db.friendCount && PairRecords(db.records, cur, to) == [] ==>
            r == Ok(request) && PairRecords(db'.records, cur, to) == [request] &&
            |db'.records| == |db.records| + 1)
      && (to in db.friendCount && |PairRecords(db.records, cur, to)| == 1 ==>
            var f := PairRecords(db.records, cur, to)[0];
            if f.status == Declined then
              r == Ok(request) && PairRecords(db'.records, cur, to) == [request] &&
              |db'.records| == |db.records|
            else
              db' == db && r == Err(SendStepFor(f.status, f.from == cur).error))
  {
    SendKeepsValid(db, cur, to);
    PairRecordsUnique(db.records, cur, to);
    if to in db.friendCount {
      match FindFirst(db.records, Between(to, cur))
      case None => SendCreates(db, cur, to);
      case Some(i) =>
        PairIsFirst(db.records, i, cur, to);
        if db.records[i].status == Declined { SendOverwrites(db, cur, to, i); }
    }
  }

  lemma SendCreates(db: Db, cur: UserId, to: UserId)
    requires Valid(db) && to in db.friendCount && FindFirst(db.records, Between(to, cur)) == None
    ensures var fs' := Send(db, cur, to).0.records;
      PairRecords(fs', cur, to) == [Friend(cur, to, Pending)] &&
      OtherPairs(fs', cur, to) == OtherPairs(db.records, cur, to)
  {
    var request := Friend(cur, to, Pending);
    var fs := db.records;
    var fs' := fs + [request];
    assert Send(db, cur, to).0.records == fs';
    AppendKeepsOtherPairs(fs, request, cur, to);
    PairRecordsConcat(fs, [request], cur, to);
    PairRecordsSingle(request, cur, to);
    PairRecordsAbsent(fs, cur, to);
  }

  lemma SendOverwrites(db: Db, cur: UserId, to: UserId, i: nat)
    requires Valid(db) && to in db.friendCount && FindFirst(db.records, Between(to, cur)) == Some(i)
    requires db.records[i].status == Declined
    ensures var fs' := Send(db, cur, to).0.records;
      PairRecords(fs', cur, to) == [Friend(cur, to, Pending)] &&
      OtherPairs(fs', cur, to) == OtherPairs(db.records, cur, to)
  {
    var request := Friend(cur, to, Pending);
    var fs := db.records;
    var fs' := fs[i := request];
    assert Send(db, cur, to).0.records == fs';
    ReplaceKeepsOtherPairs(fs, i, request, cur, to);
    ReplaceKeepsPairs(fs, i, request);
    PairIsFirst(fs', i, cur, to);
    PairRecordsUnique(fs', cur, to);
  }

  /** `reactFriendRequest` keeps one record per pair and every `friendCount` right. */
  lemma ReactKeepsValid(db: Db, cur: UserId, requester: UserId, decision: Status)
    requires Valid(db)
    ensures Valid(React(db, cur, requester, decision).0)
    ensures React(db, cur, requester, decision).0.friendCount.Keys == db.friendCount.Keys
  {
    var fs := db.records;
    match FindFirst(fs, Directed(requester, cur, Pending))
    case None =>
    case Some(i) =>
      var answered := fs[i].(status := decision);
      ReplaceKeepsPairs(fs, i, answered);
      var db' := db.(records := fs[i := answered]);
      forall u | u in db.friendCount && ((u != cur && u != requester) || decision != Accepted)
        ensures CountAccepted(db'.records, u) == CountAccepted(fs, u)
      {
        CountReplace(fs, i, answered, u);
      }
  }

  /** The outcome of `reactFriendRequest`: it succeeds exactly when a pending request from
      `requester` to `cur` exists; that record then carries `decision` and stays the pair's
      only record, other pairs are untouched, and on acceptance both users' counts grow by
      one. */
  lemma ReactOutcome(db: Db, cur: UserId, requester: UserId, decision: Status)
    requires Valid(db) && (decision == Accepted || decision == Declined)
    ensures var (db', r) := React(db, cur, requester, decision);
      && (r.Ok? <==> PairRecords(db.records, requester, cur) == [Friend(requester, cur, Pending)])
      && (r.Err? ==> db' == db && r.error == RequestNotFound)
      && (r.Ok? ==>
            && r.value == Friend(requester, cur, decision)
            && PairRecords(db'.records, requester, cur) == [r.value]
            && OtherPairs(db'.records, requester, cur) == OtherPairs(db.records, requester, cur)
            && (decision == Declined ==> db'.friendCount == db.friendCount)
            && (decision == Accepted && requester != cur ==>
                  forall u :: u in db.friendCount && (u == cur || u == requester) ==>
                    db'.friendCount[u] == db.friendCount[u] + 1))
      && (forall u :: u in db.friendCount && u != cur && u != requester ==>
            db'.friendCount[u] == db.friendCount[u])
  {
    var fs := db.records;
    ReactKeepsValid(db, cur, requester, decision);
    PairRecordsUnique(fs, requester, cur);
    var db' := React(db, cur, requester, decision).0;
    PairRecordsUnique(db'.records, requester, cur);
    match FindFirst(fs, Directed(requester, cur, Pending))
    case None =>
    case Some(i) =>
      var answered := fs[i].(status := decision);
      PairIsFirst(fs, i, requester, cur);
      PairIsFirst(db'.records, i, requester, cur);
      ReplaceKeepsOtherPairs(fs, i, answered, requester, cur);
      forall u | u in db.friendCount
        ensures CountAccepted(fs[i := answered], u) + Weight(fs[i], u) == CountAccepted(fs, u) + Weight(answered, u)
      {
        CountReplace(fs, i, answered, u);
      }
  }

  /** `cancelFriendRequest` keeps one record per pair and every `friendCount` right. */
  lemma CancelKeepsValid(db: Db, cur: UserId, to: UserId)
    requires Valid(db)
    ensures Valid(Cancel(db, cur, to).0) && Cancel(db, cur, to).0.friendCount == db.friendCount
  {
    match FindFirst(db.records, Directed(cur, to, Pending))
    case None =>
    case Some(i) =>
      DeleteKeepsPairs(db.records, i);
      forall u | u in db.friendCount
        ensures CountAccepted(Deleted(db.records, i), u) == CountAccepted(db.records, u)
      {
        CountDelete(db.records, i, u);
      }
  }

  /** The outcome of `cancelFriendRequest`: it succeeds exactly when `cur` has a pending
      request to `to`, which is then deleted; nothing else changes. */
  lemma CancelOutcome(db: Db, cur: UserId, to: UserId)
    requires Valid(db)
    ensures var (db', r) := Cancel(db, cur, to);
      && (r.Ok? <==> PairRecords(db.records, cur, to) == [Friend(cur, to, Pending)])
      && (r.Err? ==> db' == db && r.error == RequestNotFound)
      && (r.Ok? ==>
            && PairRecords(db'.records, cur, to) == []
            && OtherPairs(db'.records, cur, to) == OtherPairs(db.records, cur, to)
            && db'.friendCount == db.friendCount)
  {
    var fs := db.records;
    CancelKeepsValid(db, cur, to);
    PairRecordsUnique(fs, cur, to);
    var db' := Cancel(db, cur, to).0;
    PairRecordsUnique(db'.records, cur, to);
    match FindFirst(fs, Directed(cur, to, Pending))
    case None =>
      if PairRecords(fs, cur, to) == [Friend(cur, to, Pending)] {
        var i := FindFirst(fs, Between(cur, to)).value;
        assert Matches(Directed(cur, to, Pending), fs[i]);
      }
    case Some(i) =>
      PairIsFirst(fs, i, cur, to);
      DeleteLeavesNoPair(fs, i, cur, to);
      DeleteKeepsOtherPairs(fs, i, cur, to);
  }

  /** `removeFriend` keeps one record per pair and every `friendCount` right. */
  lemma RemoveKeepsValid(db: Db, cur: UserId, friendId: UserId)
    requires Valid(db)
    ensures Valid(Remove(db, cur, friendId).0)
    ensures Remove(db, cur, friendId).0.friendCount.Keys == db.friendCount.Keys
  {
    match FindFirst(db.records, BetweenWith(cur, friendId, Accepted))
    case None =>
    case Some(i) =>
      DeleteKeepsPairs(db.records, i);
      forall u | u in db.friendCount && u != cur && u != friendId
        ensures CountAccepted(Deleted(db.records, i), u) == CountAccepted(db.records, u)
      {
        CountDelete(db.records, i, u);
      }
  }

  /** The outcome of `removeFriend`: it succeeds exactly when `cur` and `friendId` are
      friends (in either direction); their record is then deleted, other pairs are
      untouched and both users' counts drop by one. */
  lemma RemoveOutcome(db: Db, cur: UserId, friendId: UserId)
    requires Valid(db)
    ensures var (db', r) := Remove(db, cur, friendId);
      && (r.Ok? <==> |PairRecords(db.records, cur, friendId)| == 1 &&
                     PairRecords(db.records, cur, friendId)[0].status == Accepted)
      && (r.Err? ==> db' == db && r.error == FriendNotFound)
      && (r.Ok? ==>
            && PairRecords(db'.records, cur, friendId) == []
            && OtherPairs(db'.records, cur, friendId) == OtherPairs(db.records, cur, friendId)
            && (cur != friendId ==>
                  forall u :: u in db.friendCount && (u == cur || u == friendId) ==>
                    db'.friendCount[u] + 1 == db.friendCount[u]))
      && (forall u :: u in db.friendCount && u != cur && u != friendId ==>
            db'.friendCount[u] == db.friendCount[u])
  {
    var fs := db.records;
    RemoveKeepsValid(db, cur, friendId);
    PairRecordsUnique(fs, cur, friendId);
    var db' := Remove(db, cur, friendId).0;
    PairRecordsUnique(db'.records, cur, friendId);
    match FindFirst(fs, BetweenWith(cur, friendId, Accepted))
    case None =>
    case Some(i) =>
      PairIsFirst(fs, i, cur, friendId);
      DeleteLeavesNoPair(fs, i, cur, friendId);
      DeleteKeepsOtherPairs(fs, i, cur, friendId);
      forall u | u in db.friendCount
        ensures CountAccepted(Deleted(fs, i), u) + Weight(fs[i], u) == CountAccepted(fs, u)
      {
        CountDelete(fs, i, u);
      }
  }

  // ----- the collection as the handlers update it -----

  /** The `Friend` collection together with the users' `friendCount` fields. */
  class FriendStore {
    var records: seq<Friend>
    var friendCount: map<UserId, nat>

    function State(): Db
      reads this
    {
      Db(records, friendCount)
    }

    /** A collection without records, over the given users, all counts 0. */
    constructor (users: set<UserId>)
      ensures State() == Db([], map u | u in users :: 0) && Valid(State())
    {
      records := [];
      friendCount := map u | u in users :: 0;
    }

    /** `calculateFriendCount(userId)`. */
    method CalculateFriendCount(userId: UserId)
      modifies this`friendCount
      ensures State() == Recounted(old(State()), userId)
    {
      var count := CountAccepted(records, userId);
      if userId in friendCount {
        friendCount := friendCount[userId := count];
      }
    }

    /** `sendFriendRequest` from `currentUserId` to `toUserId`. */
    method SendFriendRequest(currentUserId: UserId, toUserId: UserId) returns (r: Result<Friend>)
      modifies this`records
      ensures (State(), r) == Send(old(State()), currentUserId, toUserId)
      ensures old(Valid(State())) ==> Valid(State())
    {
      if old(Valid(State())) { SendKeepsValid(State(), currentUserId, toUserId); }
      if toUserId !in friendCount {
        return Err(UserNotFound);
      }
      var found := FindFirst(records, Between(toUserId, currentUserId));
      if found == None {
        var friend := Friend(currentUserId, toUserId, Pending);
        records := records + [friend];
        return Ok(friend);
      }
      var i := found.value;
      var friend := records[i];
      match SendStepFor(friend.status, friend.from == currentUserId)
      case Refuse(e) =>
        return Err(e);
      case Overwrite =>
        friend := friend.(from := currentUserId, to := toUserId, status := Pending);
        records := records[i := friend];
        return Ok(friend);
    }

    /** `reactFriendRequest` by `currentUserId` on the request from `fromUserId`; the
        route admits only "accepted" and "declined". The decision is read as the body's
        `status` field, the reading line 286 evidently intends. */
    method ReactFriendRequest(currentUserId: UserId, fromUserId: UserId, body: RequestBody)
      returns (r: Result<Friend>)
      requires body.status == Accepted || body.status == Declined
      modifies this
      ensures (State(), r) == React(old(State()), currentUserId, fromUserId, body.status)
      ensures old(Valid(State())) ==> Valid(State())
    {
      if old(Valid(State())) { ReactKeepsValid(State(), currentUserId, fromUserId, body.status); }
      var found := FindFirst(records, Directed(fromUserId, currentUserId, Pending));
      if found == None {
        return Err(RequestNotFound);
      }
      var i := found.value;
      var friend := records[i].(status := body.status);
      records := records[i := friend];
      if friend.status == Accepted {
        CalculateFriendCount(currentUserId);
        CalculateFriendCount(fromUserId);
      }
      return Ok(friend);
    }

    /** `cancelFriendRequest` by `currentUserId` of their request to `toUserId`. */
    method CancelFriendRequest(currentUserId: UserId, toUserId: UserId) returns (r: Result<Friend>)
      modifies this`records
      ensures (State(), r) == Cancel(old(State()), currentUserId, toUserId)
      ensures old(Valid(State())) ==> Valid(State())
    {
      if old(Valid(State())) { CancelKeepsValid(State(), currentUserId, toUserId); }
      var found := FindFirst(records, Directed(currentUserId, toUserId, Pending));
      if found == None {
        return Err(RequestNotFound);
      }
      var friend := records[found.value];
      records := records[..found.value] + records[found.value + 1..];
      return Ok(friend);
    }

    /** `removeFriend` by `currentUserId` of the friendship with `friendId`. */
    method RemoveFriend(currentUserId: UserId, friendId: UserId) returns (r: Result<Friend>)
      modifies this
      ensures (State(), r) == Remove(old(State()), currentUserId, friendId)
      ensures old(Valid(State())) ==> Valid(State())
    {
      if old(Valid(State())) { RemoveKeepsValid(State(), currentUserId, friendId); }
      var found := FindFirst(records, BetweenWith(currentUserId, friendId, Accepted));
      if found == None {
        return Err(FriendNotFound);
      }
      var friend := records[found.value];
      records := records[..found.value] + records[found.value + 1..];
      CalculateFriendCount(currentUserId);
      CalculateFriendCount(friendId);
      return Ok(friend);
    }
  }
}
