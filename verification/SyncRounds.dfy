/** Whole histories of the tables: dumps and deltas, wholesale replacement, runs of every operation,
    and two tables that exchange their changes. */
module SyncRounds {

  import opened SyncSpec

  // ---- dumps and deltas ----

  /** What the outer join of the two tables yields for a journal entry. */
  function RecordOf(t: Tables, k: Key): Change
    requires k in t.journal
  {
    Change(k.uniqueId, t.journal[k], StateOf(t, k))
  }

  function UserKeys(t: Tables, u: int): set<Key> {
    set k | k in t.journal && k.userId == u
  }

  function DeltaKeys(t: Tables, u: int, after: int): set<Key> {
    set k | k in t.journal && k.userId == u && after < t.journal[k]
  }

  /** The records of exactly these keys, each once, in any order. */
  ghost predicate Lists(t: Tables, u: int, keys: set<Key>, out: seq<Change>)
    requires keys <= UserKeys(t, u)
  {
    && (forall i, j :: 0 <= i < j < |out| ==> out[i].uniqueId != out[j].uniqueId)
    && (forall c :: c in out ==> Key(c.uniqueId, u) in keys && c == RecordOf(t, Key(c.uniqueId, u)))
    && (forall k :: k in keys ==> RecordOf(t, k) in out)
  }

  /** Merging listed records into another table settles each key by itself: the listed record
      wins where it is newer, and everything else stays. */
  lemma {:induction false} MergeListed(s: Tables, t: Tables, u: int, keys: set<Key>, out: seq<Change>, k: Key)
    requires keys <= UserKeys(t, u) && Lists(t, u, keys, out)
    ensures if k in keys && k.uniqueId != "" && IsRecent(s, k, t.journal[k])
            then Holds(Merge(s, u, out), k, RecordOf(t, k)) else SameAt(s, Merge(s, u, out), k)
  {
    if k !in keys || k.uniqueId == "" {
      MergeFrame(s, u, out, k);
    } else {
      MergeKeepsNewest(s, u, out, k.uniqueId);
      hide Merge;
      var c := RecordOf(t, k);
      var j :| 0 <= j < |out| && out[j] == c;
      assert forall i :: 0 <= i < |out| && out[i].uniqueId == k.uniqueId ==> out[i] == c;
      assert Accepts(s, u, c) <==> IsRecent(s, k, t.journal[k]);
    }
  }

  /** Every entry of the user would survive being sent: it has an id, and no stored state is empty. */
  ghost predicate Sendable(t: Tables, k: Key) {
    k.uniqueId != "" && (k in t.rows ==> t.rows[k] != "")
  }

  /** Feeding a full dump into an empty table rebuilds the user's rows, times and tombstones,
      exactly if every entry has an id and no stored state is empty. */
  lemma {:induction false} DumpReplay(t: Tables, u: int, out: seq<Change>)
    requires Consistent(t) && Lists(t, u, UserKeys(t, u), out)
    ensures Merge(EMPTY, u, out) == UserPart(t, u) <==> forall k :: k in UserKeys(t, u) ==> Sendable(t, k)
  {
    var m, p := Merge(EMPTY, u, out), UserPart(t, u);
    forall k: Key
      ensures SameAt(m, p, k) <==> (k in UserKeys(t, u) ==> Sendable(t, k))
    {
      MergeListed(EMPTY, t, u, UserKeys(t, u), out, k);
    }
    if forall k :: k in UserKeys(t, u) ==> Sendable(t, k) {
      SameEverywhere(m, p);
    }
    if m == p {
      assert forall k: Key :: SameAt(m, p, k);
    }
  }

  // ---- the mark handed out with a delta ----

  /** The greatest time in the user's journal, or zero for an empty journal. */
  ghost predicate IsLastModified(t: Tables, u: int, m: int) {
    && (UserKeys(t, u) == {} ==> m == 0)
    && (UserKeys(t, u) != {} ==> exists k :: k in UserKeys(t, u) && t.journal[k] == m)
    && (forall k :: k in UserKeys(t, u) ==> t.journal[k] <= m)
  }

  /** A delta holds only times above the mark it was asked for and up to the one handed out, and
      asking again with the new mark gives nothing until something changes. */
  lemma {:induction false} DeltaWithinMarks(t: Tables, u: int, after: int, m: int, out: seq<Change>)
    requires IsLastModified(t, u, m) && Lists(t, u, DeltaKeys(t, u, after), out)
    ensures forall c :: c in out ==> after < c.lastModified <= m
    ensures DeltaKeys(t, u, m) == {}
  {
    forall c | c in out
      ensures after < c.lastModified <= m
    {
      assert Key(c.uniqueId, u) in DeltaKeys(t, u, after);
      assert Key(c.uniqueId, u) in UserKeys(t, u);
    }
    assert forall k :: k in UserKeys(t, u) ==> k !in DeltaKeys(t, u, m);
  }

  /** When a change anywhere in a pushed list is accepted, the next delta after the push contains its key
      exactly if the list has a change of that key dated after the mark asked with: to a client that holds
      a mark not before all of them, the push stays unseen. */
  lemma {:induction false} PushSeenLater(t: Tables, u: int, cs: seq<Change>, i: nat, mark: int)
    requires i < |cs| && Results(t, u, cs)[i]
    ensures Key(cs[i].uniqueId, u) in DeltaKeys(Merge(t, u, cs), u, mark) <==>
            exists j :: 0 <= j < |cs| && cs[j].uniqueId == cs[i].uniqueId && mark < cs[j].lastModified
  {
    var id, s := cs[i].uniqueId, Merge(t, u, cs);
    ResultsAreBeats(t, u, cs, i);
    MergeKeepsNewest(t, u, cs, id);
    hide Merge, Results;
    var k := Key(id, u);
    assert cs[i].lastModified <= s.journal[k];
    assert !SameAt(t, s, k);
    var j :| 0 <= j < |cs| && cs[j].uniqueId == id && Holds(s, k, cs[j]) && BeatsAll(t, u, cs, j);
  }

  // ---- wholesale replacement ----

  function Wipe(t: Tables, u: int): Tables {
    Tables(map k | k in t.rows && k.userId != u :: t.rows[k], map k | k in t.journal && k.userId != u :: t.journal[k])
  }

  predicate Eligible(c: Change) {
    c.HasDiscriminator() && c.uniqueId != ""
  }

  function RefillOne(t: Tables, u: int, c: Change): Tables {
    if Eligible(c) then Insert(t, Key(c.uniqueId, u), c.state, c.lastModified) else t
  }

  function Refill(t: Tables, u: int, cs: seq<Change>): Tables {
    if cs == [] then t else RefillOne(Refill(t, u, cs[..|cs| - 1]), u, cs[|cs| - 1])
  }

  function Replace(t: Tables, u: int, cs: seq<Change>): Tables {
    if cs == [] then t else Refill(Wipe(t, u), u, cs)
  }

  /** Change i is the last one of its key that can be stored. */
  ghost predicate LastOfKey(cs: seq<Change>, i: nat)
    requires i < |cs|
  {
    Eligible(cs[i]) && forall j :: i < j < |cs| && cs[j].uniqueId == cs[i].uniqueId ==> !Eligible(cs[j])
  }

  /** Key k of the refilled tables holds the last eligible change of k, or is as before if there is none. */
  ghost predicate Refilled(t: Tables, s: Tables, u: int, cs: seq<Change>, k: Key) {
    if k.userId == u && exists i :: 0 <= i < |cs| && cs[i].uniqueId == k.uniqueId && Eligible(cs[i])
    then exists i :: 0 <= i < |cs| && cs[i].uniqueId == k.uniqueId && LastOfKey(cs, i) && Holds(s, k, cs[i])
    else SameAt(t, s, k)
  }

  /** A change that is not stored for k leaves the last eligible change of k where it was. */
  lemma {:induction false} RefilledExtends(t: Tables, s: Tables, u: int, cs: seq<Change>, c: Change, k: Key)
    requires Refilled(t, s, u, cs, k)
    requires k.userId != u || c.uniqueId != k.uniqueId || !Eligible(c)
    ensures Refilled(t, s, u, cs + [c], k)
  {
    var n, ds := |cs|, cs + [c];
    assert forall j :: 0 <= j < n ==> ds[j] == cs[j];
    if k.userId == u && exists i :: 0 <= i < n && cs[i].uniqueId == k.uniqueId && Eligible(cs[i]) {
      var i :| 0 <= i < n && cs[i].uniqueId == k.uniqueId && LastOfKey(cs, i) && Holds(s, k, cs[i]);
      assert ds[i].uniqueId == k.uniqueId && LastOfKey(ds, i) && Holds(s, k, ds[i]);
    }
  }

  lemma {:induction false} RefillAt(t: Tables, u: int, cs: seq<Change>, k: Key)
    ensures Refilled(t, Refill(t, u, cs), u, cs, k)
  {
    if cs != [] {
      var n := |cs| - 1;
      var front, c := cs[..n], cs[n];
      RefillAt(t, u, front, k);
      var before, after := Refill(t, u, front), Refill(t, u, cs);
      assert front + [c] == cs;
      if k.userId == u && c.uniqueId == k.uniqueId && Eligible(c) {
        assert cs[n].uniqueId == k.uniqueId && LastOfKey(cs, n) && Holds(after, k, cs[n]);
      } else {
        assert SameAt(before, after, k);
        hide LastOfKey, Eligible;
        RefilledExtends(t, before, u, front, c, k);
      }
    }
  }

  /** After a replacement by a non-empty list the user has exactly the last eligible record of
      each key, in both tables; nobody else is touched. */
  lemma {:induction false} ReplaceKeepsLast(t: Tables, u: int, cs: seq<Change>, k: Key)
    requires cs != []
    ensures Refilled(Wipe(t, u), Replace(t, u, cs), u, cs, k)
    ensures k.userId != u ==> SameAt(t, Replace(t, u, cs), k)
    ensures k.userId == u ==> (k in Replace(t, u, cs).rows <==> k in Replace(t, u, cs).journal)
  {
    RefillAt(Wipe(t, u), u, cs, k);
  }

  // ---- runs ----

  datatype Op =
    | HandleChanges(user: int, changes: seq<Change>)
    | InsertIfRecent(user: int, change: Change)
    | DeleteIfRecent(user: int, change: Change)
    | InsertOne(user: int, change: Change)
    | DeleteOne(user: int, change: Change)
    | SyncAt(user: int, changes: seq<Change>)
    | ReplaceAll(user: int, changes: seq<Change>)

  function Apply(t: Tables, op: Op): Tables {
    match op
    case HandleChanges(u, cs) => Merge(t, u, cs)
    case InsertIfRecent(u, c) =>
      if IsRecent(t, Key(c.uniqueId, u), c.lastModified)
      then Insert(t, Key(c.uniqueId, u), c.state, c.lastModified) else t
    case DeleteIfRecent(u, c) =>
      if IsRecent(t, Key(c.uniqueId, u), c.lastModified) then Delete(t, Key(c.uniqueId, u), c.lastModified) else t
    case InsertOne(u, c) => Insert(t, Key(c.uniqueId, u), c.state, c.lastModified)
    case DeleteOne(u, c) => Delete(t, Key(c.uniqueId, u), c.lastModified)
    case SyncAt(u, cs) => Merge(t, u, cs)
    case ReplaceAll(u, cs) => Replace(t, u, cs)
  }

  function Run(t: Tables, ops: seq<Op>): Tables {
    if ops == [] then t else Apply(Run(t, ops[..|ops| - 1]), ops[|ops| - 1])
  }

  lemma {:induction false} RefillConsistent(t: Tables, u: int, cs: seq<Change>)
    requires Consistent(t)
    ensures Consistent(Refill(t, u, cs))
  {
    if cs != [] {
      RefillConsistent(t, u, cs[..|cs| - 1]);
    }
  }

  lemma {:induction false} ApplyConsistent(t: Tables, op: Op)
    requires Consistent(t)
    ensures Consistent(Apply(t, op))
  {
    match op
    case HandleChanges(u, cs) => MergeConsistent(t, u, cs);
    case SyncAt(u, cs) => MergeConsistent(t, u, cs);
    case ReplaceAll(u, cs) => RefillConsistent(Wipe(t, u), u, cs);
    case _ =>
  }

  /** In every reachable state each data row has a journal entry. */
  lemma {:induction false} RunConsistent(ops: seq<Op>)
    ensures Consistent(Run(EMPTY, ops))
  {
    if ops != [] {
      RunConsistent(ops[..|ops| - 1]);
      ApplyConsistent(Run(EMPTY, ops[..|ops| - 1]), ops[|ops| - 1]);
    }
  }

  /** An operation for one user leaves the rest of both tables alone. */
  lemma {:induction false} ApplyFrame(t: Tables, op: Op, k: Key)
    requires k.userId != op.user
    ensures SameAt(t, Apply(t, op), k)
  {
    match op
    case HandleChanges(u, cs) => MergeFrame(t, u, cs, k);
    case SyncAt(u, cs) => MergeFrame(t, u, cs, k);
    case ReplaceAll(u, cs) => if cs != [] { ReplaceKeepsLast(t, u, cs, k); }
    case _ =>
  }

  lemma {:induction false} MergeLocal(t: Tables, s: Tables, u: int, cs: seq<Change>, k: Key)
    requires k.userId == u && SameAt(t, s, k)
    ensures SameAt(Merge(t, u, cs), Merge(s, u, cs), k)
  {
    if cs != [] {
      MergeLocal(t, s, u, cs[..|cs| - 1], k);
    }
  }

  lemma {:induction false} RefillLocal(t: Tables, s: Tables, u: int, cs: seq<Change>, k: Key)
    requires k.userId == u && SameAt(t, s, k)
    ensures SameAt(Refill(t, u, cs), Refill(s, u, cs), k)
  {
    if cs != [] {
      RefillLocal(t, s, u, cs[..|cs| - 1], k);
    }
  }

  /** What an operation does to a key depends on what the tables hold for that key alone. */
  lemma {:induction false} ApplyLocal(t: Tables, s: Tables, op: Op, k: Key)
    requires k.userId == op.user && SameAt(t, s, k)
    ensures SameAt(Apply(t, op), Apply(s, op), k)
  {
    match op
    case HandleChanges(u, cs) => MergeLocal(t, s, u, cs, k);
    case SyncAt(u, cs) => MergeLocal(t, s, u, cs, k);
    case ReplaceAll(u, cs) => RefillLocal(Wipe(t, u), Wipe(s, u), u, cs, k);
    case _ =>
  }

  function OpsOf(ops: seq<Op>, u: int): seq<Op> {
    if ops == [] then []
    else OpsOf(ops[..|ops| - 1], u) + (if ops[|ops| - 1].user == u then [ops[|ops| - 1]] else [])
  }

  /** A user's rows and journal after any run are those of a run of that user's operations alone. */
  lemma {:induction false} UsersDoNotInterfere(t: Tables, ops: seq<Op>, u: int)
    ensures UserPart(Run(t, ops), u) == UserPart(Run(t, OpsOf(ops, u)), u)
  {
    if ops != [] {
      var front, op := ops[..|ops| - 1], ops[|ops| - 1];
      UsersDoNotInterfere(t, front, u);
      var a, b := Run(t, front), Run(t, OpsOf(front, u));
      UserPartSame(a, b, u);
      var mine := OpsOf(ops, u);
      assert op.user == u ==> mine[..|mine| - 1] == OpsOf(front, u);
      assert OpsOf(front, u) + [] == OpsOf(front, u);
      assert Run(t, mine) == if op.user == u then Apply(b, op) else b;
      forall k: Key | k.userId == u
        ensures SameAt(Apply(a, op), if op.user == u then Apply(b, op) else b, k)
      {
        assert SameAt(a, b, k);
        if op.user == u {
          ApplyLocal(a, b, op, k);
        } else {
          ApplyFrame(a, op, k);
        }
      }
      UserPartSame(Apply(a, op), Run(t, mine), u);
    }
  }

  /** The operations that look at the stored time first. */
  predicate Conditional(op: Op) {
    op.HandleChanges? || op.InsertIfRecent? || op.DeleteIfRecent? || op.SyncAt?
  }

  /** Through such operations alone no entry of the journal is lost or goes back in time, and a
      key whose time stays keeps its row. */
  lemma {:induction false} JournalOnlyGrows(t: Tables, ops: seq<Op>, k: Key)
    requires forall i :: 0 <= i < |ops| ==> Conditional(ops[i])
    requires k in t.journal
    ensures k in Run(t, ops).journal && t.journal[k] <= Run(t, ops).journal[k]
    ensures Run(t, ops).journal[k] == t.journal[k] ==> SameAt(t, Run(t, ops), k)
  {
    if ops != [] {
      var front, op := ops[..|ops| - 1], ops[|ops| - 1];
      JournalOnlyGrows(t, front, k);
      var s := Run(t, front);
      if op.user != k.userId {
        ApplyFrame(s, op, k);
      } else if op.HandleChanges? || op.SyncAt? {
        if k.uniqueId == "" {
          MergeFrame(s, op.user, op.changes, k);
        } else {
          MergeKeepsNewest(s, op.user, op.changes, k.uniqueId);
        }
      }
    }
  }

  // ---- two tables exchanging changes ----

  /** Entries of w that are newer than the mark and than the other table's entry. */
  ghost predicate Wins(w: Tables, o: Tables, u: int, mark: int, k: Key) {
    k in DeltaKeys(w, u, mark) && IsRecent(o, k, w.journal[k])
  }

  /** Key k comes out equal: it is equal already, or one side wins it with an entry that can be sent. */
  ghost predicate Settles(a: Tables, b: Tables, u: int, mark: int, k: Key) {
    || SameAt(a, b, k)
    || (Wins(a, b, u, mark, k) && Sendable(a, k))
    || (Wins(b, a, u, mark, k) && Sendable(b, k))
  }

  ghost predicate AllSettle(a: Tables, b: Tables, u: int, mark: int) {
    forall k: Key :: k.userId == u ==> Settles(a, b, u, mark, k)
  }

  /** One round: the server merges what the client pushes, the client merges what the server had
      changed before that. */
  lemma {:induction false} RoundAt(
      a: Tables, b: Tables, u: int, mark: int, ours: seq<Change>, pushed: seq<Change>, k: Key)
    requires k.userId == u
    requires Lists(a, u, DeltaKeys(a, u, mark), ours) && Lists(b, u, DeltaKeys(b, u, mark), pushed)
    ensures SameAt(Merge(a, u, pushed), Merge(b, u, ours), k) <==> Settles(a, b, u, mark, k)
  {
    MergeListed(a, b, u, DeltaKeys(b, u, mark), pushed, k);
    MergeListed(b, a, u, DeltaKeys(a, u, mark), ours, k);
    hide Merge;
    var a', b' := Merge(a, u, pushed), Merge(b, u, ours);
    if Wins(a, b, u, mark, k) {
      assert SameAt(a, a', k);
    } else if Wins(b, a, u, mark, k) {
      assert SameAt(b, b', k);
    } else {
      assert SameAt(a, a', k) && SameAt(b, b', k);
    }
  }

  /** Of any two tables, one round makes the user's parts equal, deletions included, exactly if every key
      is equal already or is won by an entry that can travel: newer than the mark and than the other
      side's, with an id, and without an empty stored state. */
  lemma {:induction false} RoundConverges(
      a: Tables, b: Tables, u: int, mark: int, ours: seq<Change>, pushed: seq<Change>)
    requires Lists(a, u, DeltaKeys(a, u, mark), ours) && Lists(b, u, DeltaKeys(b, u, mark), pushed)
    ensures UserPart(Merge(a, u, pushed), u) == UserPart(Merge(b, u, ours), u) <==> AllSettle(a, b, u, mark)
  {
    var a', b' := Merge(a, u, pushed), Merge(b, u, ours);
    UserPartSame(a', b', u);
    forall k: Key | k.userId == u
      ensures SameAt(a', b', k) <==> Settles(a, b, u, mark, k)
    {
      RoundAt(a, b, u, mark, ours, pushed, k);
    }
  }

  /** A tie with different contents is never settled, whatever the mark, and no round ever changes it. */
  lemma {:induction false} TiesStay(
      a: Tables, b: Tables, u: int, mark: int, ours: seq<Change>, pushed: seq<Change>, k: Key)
    requires k.userId == u && k in a.journal && k in b.journal && a.journal[k] == b.journal[k]
    requires Lists(a, u, DeltaKeys(a, u, mark), ours) && Lists(b, u, DeltaKeys(b, u, mark), pushed)
    ensures SameAt(a, Merge(a, u, pushed), k) && SameAt(b, Merge(b, u, ours), k)
  {
    MergeListed(a, b, u, DeltaKeys(b, u, mark), pushed, k);
    MergeListed(b, a, u, DeltaKeys(a, u, mark), ours, k);
  }

  /** Why replacements are not among the edits below: a key that two equal tables hold since before the
      mark, and that a replacement on one side drops, leaves no trace there and is never settled. */
  lemma {:induction false} ReplacementUnsettles(t: Tables, u: int, cs: seq<Change>, mark: int, k: Key)
    requires k in UserKeys(t, u) && t.journal[k] <= mark && cs != []
    requires forall i :: 0 <= i < |cs| && cs[i].uniqueId == k.uniqueId ==> !Eligible(cs[i])
    ensures !Settles(Replace(t, u, cs), t, u, mark, k)
  {
    ReplaceKeepsLast(t, u, cs, k);
  }

  // ---- any number of rounds ----

  /** A server and one client, with the mark the client got from its latest round. */
  datatype System = System(server: Tables, client: Tables, mark: int)

  datatype Move = Edit(atServer: bool, op: Op) | Round(ours: seq<Change>, pushed: seq<Change>, next: int)

  /** The changes an operation offers: each is stored as it stands, or not at all. */
  function Offers(op: Op): seq<Change> {
    match op
    case HandleChanges(_, cs) => cs
    case SyncAt(_, cs) => cs
    case ReplaceAll(_, cs) => cs
    case InsertIfRecent(_, c) => [c]
    case InsertOne(_, c) => [c]
    case DeleteIfRecent(_, c) => [c.(state := "")]
    case DeleteOne(_, c) => [c.(state := "")]
  }

  /** The change is dated after the latest round, and if the other side has that key with that very
      time, then with that very content. */
  ghost predicate Fresh(c: Change, u: int, mark: int, other: Tables) {
    var k := Key(c.uniqueId, u);
    && mark < c.lastModified
    && (k in other.journal && other.journal[k] == c.lastModified ==> Holds(other, k, c))
  }

  /** An edit is any operation of another user, or one of the user that is no replacement and offers fresh
      changes; one that takes a single record has an id and, if it stores, a state. A round exchanges the
      two deltas and hands out the server's greatest time from before the pushes. */
  ghost predicate Legal(s: System, u: int, m: Move) {
    match m
    case Edit(atServer, op) =>
      op.user == u ==>
        && !op.ReplaceAll?
        && (forall c :: c in Offers(op) ==> Fresh(c, u, s.mark, if atServer then s.client else s.server))
        && (op.InsertIfRecent? || op.InsertOne? ==> Eligible(op.change))
        && (op.DeleteIfRecent? || op.DeleteOne? ==> op.change.uniqueId != "")
    case Round(ours, pushed, next) =>
      && Lists(s.server, u, DeltaKeys(s.server, u, s.mark), ours)
      && Lists(s.client, u, DeltaKeys(s.client, u, s.mark), pushed)
      && IsLastModified(s.server, u, next)
  }

  function Make(s: System, u: int, m: Move): System {
    match m
    case Edit(true, op) => s.(server := Apply(s.server, op))
    case Edit(false, op) => s.(client := Apply(s.client, op))
    case Round(ours, pushed, next) => System(Merge(s.server, u, pushed), Merge(s.client, u, ours), next)
  }

  function After(s: System, u: int, ms: seq<Move>): System {
    if ms == [] then s else Make(After(s, u, ms[..|ms| - 1]), u, ms[|ms| - 1])
  }

  ghost predicate LegalRun(s: System, u: int, ms: seq<Move>) {
    ms == [] || (LegalRun(s, u, ms[..|ms| - 1]) && Legal(After(s, u, ms[..|ms| - 1]), u, ms[|ms| - 1]))
  }

  ghost predicate Clean(t: Tables, u: int) {
    forall k :: k in UserKeys(t, u) ==> Sendable(t, k)
  }

  /** Between rounds: nothing is stored that cannot travel, and the next round settles every key. */
  ghost predicate Synced(s: System, u: int) {
    && Clean(s.server, u) && Clean(s.client, u)
    && AllSettle(s.server, s.client, u, s.mark)
  }

  lemma {:induction false} MergeClean(t: Tables, u: int, cs: seq<Change>)
    requires Clean(t, u)
    ensures Clean(Merge(t, u, cs), u)
  {
    if cs != [] {
      var front, c := cs[..|cs| - 1], cs[|cs| - 1];
      MergeClean(t, u, front);
      var s, m := Merge(t, u, front), Merge(t, u, cs);
      forall k | k in UserKeys(m, u)
        ensures Sendable(m, k)
      {
        if k != Key(c.uniqueId, u) {
          assert k in UserKeys(s, u) && SameAt(s, m, k);
        } else if k in UserKeys(s, u) {
          assert Sendable(s, k);
        }
      }
    }
  }

  /** An edit leaves a key as it is, or makes it hold one of the changes offered. */
  lemma {:induction false} EditAt(t: Tables, o: Tables, u: int, mark: int, op: Op, k: Key) returns (c: Change)
    requires op.user == u == k.userId && !op.ReplaceAll?
    requires forall c :: c in Offers(op) ==> Fresh(c, u, mark, o)
    requires op.InsertIfRecent? || op.InsertOne? ==> Eligible(op.change)
    requires op.DeleteIfRecent? || op.DeleteOne? ==> op.change.uniqueId != ""
    ensures SameAt(t, Apply(t, op), k)
            || (Holds(Apply(t, op), k, c) && c.uniqueId == k.uniqueId != "" && Fresh(c, u, mark, o))
  {
    if op.HandleChanges? || op.SyncAt? {
      var cs := op.changes;
      c := Change("", 0, "");
      if k.uniqueId == "" {
        MergeFrame(t, u, cs, k);
      } else {
        MergeKeepsNewest(t, u, cs, k.uniqueId);
        hide Merge;
        var s := Merge(t, u, cs);
        if !SameAt(t, s, k) {
          var i :| 0 <= i < |cs| && cs[i].uniqueId == k.uniqueId && Holds(s, k, cs[i]) && BeatsAll(t, u, cs, i);
          c := cs[i];
          assert c in Offers(op);
        }
      }
    } else {
      c := Offers(op)[0];
      assert c in Offers(op);
    }
  }

  /** A fresh entry wins, or ties with the very same content, or loses to a newer one. */
  lemma {:induction false} FreshSettles(t: Tables, o: Tables, u: int, mark: int, k: Key, c: Change)
    requires Clean(o, u) && k.userId == u
    requires Holds(t, k, c) && c.uniqueId == k.uniqueId != "" && Fresh(c, u, mark, o)
    ensures Sendable(t, k) && Settles(t, o, u, mark, k)
  {
    assert Key(c.uniqueId, u) == k;
    if k in o.journal && c.lastModified < o.journal[k] {
      assert k in UserKeys(o, u);
    }
  }

  lemma {:induction false} SettlesLocal(t: Tables, t': Tables, o: Tables, u: int, mark: int, k: Key)
    requires SameAt(t, t', k) && Settles(t, o, u, mark, k)
    ensures Settles(t', o, u, mark, k)
  {
  }

  lemma {:induction false} EditKeepsSynced(s: System, u: int, m: Move)
    requires m.Edit? && Synced(s, u) && Legal(s, u, m)
    ensures Synced(Make(s, u, m), u)
  {
    var t, o := if m.atServer then s.server else s.client, if m.atServer then s.client else s.server;
    var t' := Apply(t, m.op);
    assert Make(s, u, m) == if m.atServer then s.(server := t') else s.(client := t');
    forall k: Key | k.userId == u
      ensures k in UserKeys(t', u) ==> Sendable(t', k)
      ensures Settles(t', o, u, s.mark, k)
    {
      assert Settles(s.server, s.client, u, s.mark, k);
      if m.op.user != u {
        ApplyFrame(t, m.op, k);
      } else if !SameAt(t, t', k) {
        var c := EditAt(t, o, u, s.mark, m.op, k);
        FreshSettles(t', o, u, s.mark, k, c);
      }
      if SameAt(t, t', k) {
        SettlesLocal(t, t', o, u, s.mark, k);
        assert k in UserKeys(t', u) ==> k in UserKeys(t, u);
      }
    }
  }

  lemma {:induction false} RoundMakesSynced(s: System, u: int, m: Move)
    requires m.Round? && Synced(s, u) && Legal(s, u, m)
    ensures UserPart(Make(s, u, m).server, u) == UserPart(Make(s, u, m).client, u)
    ensures Synced(Make(s, u, m), u)
  {
    var s' := Make(s, u, m);
    RoundConverges(s.server, s.client, u, s.mark, m.ours, m.pushed);
    MergeClean(s.server, u, m.pushed);
    MergeClean(s.client, u, m.ours);
    UserPartSame(s'.server, s'.client, u);
  }

  /** Starting from empty tables, over any run of local edits on both sides and rounds, whatever
      mark the server hands out: after every round the two tables are equal for the user. */
  lemma {:induction false} EveryRoundConverges(s: System, u: int, ms: seq<Move>)
    requires s.server == s.client == EMPTY && LegalRun(s, u, ms)
    ensures Synced(After(s, u, ms), u)
    ensures ms != [] && ms[|ms| - 1].Round? ==>
              UserPart(After(s, u, ms).server, u) == UserPart(After(s, u, ms).client, u)
  {
    if ms != [] {
      var front, m := ms[..|ms| - 1], ms[|ms| - 1];
      EveryRoundConverges(s, u, front);
      var before := After(s, u, front);
      if m.Edit? {
        EditKeepsSynced(before, u, m);
      } else {
        RoundMakesSynced(before, u, m);
      }
    }
  }
}
