/** What a whole run of operations leaves for one key, told by the history of that key alone. */
module SyncHistory {

  import opened SyncSpec
  import opened SyncRounds
  import opened Wrappers

  /** What both tables hold for a key: the journal's time and the stored state. */
  datatype Cell = Cell(time: Option<int>, row: Option<string>)

  function CellAt(t: Tables, k: Key): Cell {
    Cell(if k in t.journal then Some(t.journal[k]) else None, if k in t.rows then Some(t.rows[k]) else None)
  }

  /** The four operations on a single record, in terms of the tables: the unconditional ones always leave the
      given time, with the state or without one; the conditional ones do so exactly if no time is stored or
      an older one, and change nothing otherwise; no other key is touched. */
  lemma {:induction false} SingleRecord(t: Tables, u: int, c: Change, k: Key)
    ensures CellAt(Apply(t, InsertOne(u, c)), k) ==
            if k == Key(c.uniqueId, u) then Cell(Some(c.lastModified), Some(c.state)) else CellAt(t, k)
    ensures CellAt(Apply(t, DeleteOne(u, c)), k) ==
            if k == Key(c.uniqueId, u) then Cell(Some(c.lastModified), None) else CellAt(t, k)
    ensures CellAt(Apply(t, InsertIfRecent(u, c)), k) ==
            if k == Key(c.uniqueId, u) && (k in t.journal ==> t.journal[k] < c.lastModified)
            then Cell(Some(c.lastModified), Some(c.state)) else CellAt(t, k)
    ensures CellAt(Apply(t, DeleteIfRecent(u, c)), k) ==
            if k == Key(c.uniqueId, u) && (k in t.journal ==> t.journal[k] < c.lastModified)
            then Cell(Some(c.lastModified), None) else CellAt(t, k)
  {
  }

  // ---- the history of a key ----

  /** The key is dropped from both tables; or gets an entry whatever is stored; or is offered one. */
  datatype Event = Reset | Force(time: int, row: Option<string>) | Offer(time: int, row: Option<string>) {
    /** What the event would leave. */
    function Entry(): Cell {
      if Reset? then Cell(None, None) else Cell(Some(time), row)
    }
  }

  /** The offers a list of changes makes to the key with this id: an empty state is a deletion. */
  function Offered(cs: seq<Change>, id: string): (es: seq<Event>)
    ensures forall e :: e in es ==> e.Offer?
  {
    if cs == [] then []
    else
      var c := cs[|cs| - 1];
      Offered(cs[..|cs| - 1], id)
      + if c.uniqueId == id then [Offer(c.lastModified, if c.state == "" then None else Some(c.state))] else []
  }

  /** The entries a replacement gives to the key: records without a state are passed over. */
  function Forced(cs: seq<Change>, id: string): (es: seq<Event>)
    ensures forall e :: e in es ==> e.Force?
  {
    if cs == [] then []
    else
      var c := cs[|cs| - 1];
      Forced(cs[..|cs| - 1], id)
      + if c.uniqueId == id && c.state != "" then [Force(c.lastModified, Some(c.state))] else []
  }

  /** What an operation has to do with key k. Lists pass over records without an id. */
  function EventsOf(op: Op, k: Key): seq<Event> {
    if op.user != k.userId then []
    else match op
      case HandleChanges(_, cs) => if k.uniqueId == "" then [] else Offered(cs, k.uniqueId)
      case SyncAt(_, cs) => if k.uniqueId == "" then [] else Offered(cs, k.uniqueId)
      case ReplaceAll(_, cs) =>
        if cs == [] then [] else [Reset] + if k.uniqueId == "" then [] else Forced(cs, k.uniqueId)
      case InsertIfRecent(_, c) => if c.uniqueId == k.uniqueId then [Offer(c.lastModified, Some(c.state))] else []
      case DeleteIfRecent(_, c) => if c.uniqueId == k.uniqueId then [Offer(c.lastModified, None)] else []
      case InsertOne(_, c) => if c.uniqueId == k.uniqueId then [Force(c.lastModified, Some(c.state))] else []
      case DeleteOne(_, c) => if c.uniqueId == k.uniqueId then [Force(c.lastModified, None)] else []
  }

  function Events(ops: seq<Op>, k: Key): seq<Event> {
    if ops == [] then [] else Events(ops[..|ops| - 1], k) + EventsOf(ops[|ops| - 1], k)
  }

  // ---- what a history comes to ----

  /** Of a starting cell and offers: the start, or the first of the newest offers if that is newer. */
  ghost predicate KeepsNewest(start: Cell, offers: seq<Event>, end: Cell)
    requires forall e :: e in offers ==> e.Offer?
  {
    && (|| end == start
        || exists i :: 0 <= i < |offers| && end == offers[i].Entry() && TakesOver(start, offers, i))
    && forall j :: 0 <= j < |offers| ==> end.time.Some? && offers[j].time <= end.time.value
  }

  ghost predicate TakesOver(start: Cell, offers: seq<Event>, i: nat)
    requires i < |offers| && forall e :: e in offers ==> e.Offer?
  {
    && (start.time.Some? ==> start.time.value < offers[i].time)
    && forall j :: 0 <= j < i ==> offers[j].time < offers[i].time
  }

  /** The last event before position b that is not an offer makes the starting cell; all later ones are. */
  ghost predicate SinceLast(start: Cell, es: seq<Event>, b: nat, base: Cell)
    requires b <= |es|
  {
    && (forall e :: e in es[b..] ==> e.Offer?)
    && (if b == 0 then base == start
        else !es[b - 1].Offer? && base == es[b - 1].Entry())
  }

  /** The latest unconditional event decides, up to newer offers after it. */
  ghost predicate ComesTo(start: Cell, es: seq<Event>, end: Cell) {
    exists b, base :: 0 <= b <= |es| && SinceLast(start, es, b, base) && KeepsNewest(base, es[b..], end)
  }

  function Effect(x: Cell, e: Event): Cell {
    if e.Offer? && x.time.Some? && x.time.value >= e.time then x else e.Entry()
  }

  function Effects(x: Cell, es: seq<Event>): Cell {
    if es == [] then x else Effect(Effects(x, es[..|es| - 1]), es[|es| - 1])
  }

  lemma {:induction false} EffectsConcat(x: Cell, es: seq<Event>, fs: seq<Event>)
    ensures Effects(x, es + fs) == Effects(Effects(x, es), fs)
  {
    if fs == [] {
      assert es + fs == es;
    } else {
      var n := |fs| - 1;
      EffectsConcat(x, es, fs[..n]);
      assert (es + fs)[..|es + fs| - 1] == es + fs[..n];
    }
  }

  lemma {:induction false} EffectsCome(x: Cell, es: seq<Event>)
    ensures ComesTo(x, es, Effects(x, es))
  {
    if es == [] {
      assert SinceLast(x, es, 0, x) && KeepsNewest(x, es[0..], x);
    } else {
      var n := |es| - 1;
      var front, e, before, after := es[..n], es[n], Effects(x, es[..n]), Effects(x, es);
      EffectsCome(x, front);
      if e.Offer? {
        var b, base :| 0 <= b <= |front| && SinceLast(x, front, b, base) && KeepsNewest(base, front[b..], before);
        OneMoreOffer(base, front[b..], before, e);
        assert es[b..] == front[b..] + [e];
        assert SinceLast(x, es, b, base);
      } else {
        assert SinceLast(x, es, n + 1, after) && KeepsNewest(after, es[n + 1..], after);
      }
    }
  }

  lemma {:induction false} OneMoreOffer(base: Cell, offers: seq<Event>, before: Cell, e: Event)
    requires forall f :: f in offers ==> f.Offer?
    requires KeepsNewest(base, offers, before) && e.Offer?
    ensures KeepsNewest(base, offers + [e], Effect(before, e))
  {
    var n, more := |offers|, offers + [e];
    assert forall j :: 0 <= j < n ==> more[j] == offers[j];
    if Effect(before, e) == before {
      if before != base {
        var i :| 0 <= i < n && before == offers[i].Entry() && TakesOver(base, offers, i);
        assert more[i] == offers[i] && TakesOver(base, more, i);
      }
    } else {
      assert more[n] == e && TakesOver(base, more, n);
    }
  }

  // ---- the operations follow the history ----

  lemma {:induction false} MergeEvents(t: Tables, u: int, cs: seq<Change>, k: Key)
    requires k.userId == u && k.uniqueId != ""
    ensures CellAt(Merge(t, u, cs), k) == Effects(CellAt(t, k), Offered(cs, k.uniqueId))
  {
    if cs != [] {
      var front, c := cs[..|cs| - 1], cs[|cs| - 1];
      MergeEvents(t, u, front, k);
      var es, fs := Offered(front, k.uniqueId), Offered(cs, k.uniqueId);
      if c.uniqueId == k.uniqueId {
        assert fs[..|fs| - 1] == es;
      } else {
        assert fs == es;
      }
    }
  }

  lemma {:induction false} RefillEvents(t: Tables, u: int, cs: seq<Change>, k: Key)
    requires k.userId == u && k.uniqueId != ""
    ensures CellAt(Refill(t, u, cs), k) == Effects(CellAt(t, k), Forced(cs, k.uniqueId))
  {
    if cs != [] {
      var front, c := cs[..|cs| - 1], cs[|cs| - 1];
      RefillEvents(t, u, front, k);
      var es, fs := Forced(front, k.uniqueId), Forced(cs, k.uniqueId);
      if c.uniqueId == k.uniqueId && c.state != "" {
        assert fs[..|fs| - 1] == es;
      } else {
        assert fs == es;
      }
    }
  }

  lemma {:induction false} RefillFrame(t: Tables, u: int, cs: seq<Change>, k: Key)
    requires k.uniqueId == ""
    ensures CellAt(Refill(t, u, cs), k) == CellAt(t, k)
  {
    if cs != [] {
      RefillFrame(t, u, cs[..|cs| - 1], k);
    }
  }

  lemma {:induction false} ApplyEvents(t: Tables, op: Op, k: Key)
    ensures CellAt(Apply(t, op), k) == Effects(CellAt(t, k), EventsOf(op, k))
  {
    if op.user != k.userId {
      ApplyFrame(t, op, k);
    } else if op.HandleChanges? || op.SyncAt? {
      if k.uniqueId == "" {
        MergeFrame(t, op.user, op.changes, k);
      } else {
        MergeEvents(t, op.user, op.changes, k);
      }
    } else if op.ReplaceAll? {
      if op.changes != [] {
        var x, w := CellAt(t, k), Wipe(t, op.user);
        assert CellAt(w, k) == Cell(None, None) == Effects(x, [Reset]);
        if k.uniqueId == "" {
          RefillFrame(w, op.user, op.changes, k);
          assert [Reset] + [] == [Reset];
        } else {
          RefillEvents(w, op.user, op.changes, k);
          EffectsConcat(x, [Reset], Forced(op.changes, k.uniqueId));
        }
      }
    } else {
      OneEvent(t, op, k);
    }
  }

  lemma {:induction false} OneEvent(t: Tables, op: Op, k: Key)
    requires op.user == k.userId && !op.HandleChanges? && !op.SyncAt? && !op.ReplaceAll?
    ensures CellAt(Apply(t, op), k) == Effects(CellAt(t, k), EventsOf(op, k))
  {
    SingleRecord(t, op.user, op.change, k);
    hide Apply;
  }

  /** After any run of any operations, each key holds the entry of the latest unconditional operation on it,
      nothing if that was a replacement without it, or else the first of the newest entries offered since. */
  lemma {:induction false} RunComesTo(t: Tables, ops: seq<Op>, k: Key)
    ensures ComesTo(CellAt(t, k), Events(ops, k), CellAt(Run(t, ops), k))
  {
    RunEvents(t, ops, k);
    EffectsCome(CellAt(t, k), Events(ops, k));
  }

  lemma {:induction false} RunEvents(t: Tables, ops: seq<Op>, k: Key)
    ensures CellAt(Run(t, ops), k) == Effects(CellAt(t, k), Events(ops, k))
  {
    if ops != [] {
      var front, op := ops[..|ops| - 1], ops[|ops| - 1];
      RunEvents(t, front, k);
      ApplyEvents(Run(t, front), op, k);
      EffectsConcat(CellAt(t, k), Events(front, k), EventsOf(op, k));
    }
  }

  lemma {:induction false} OneBase(x: Cell, es: seq<Event>, b: nat, base: Cell, d: nat, other: Cell)
    requires b <= |es| && SinceLast(x, es, b, base) && d <= |es| && SinceLast(x, es, d, other)
    ensures b == d && base == other
  {
    forall i | b <= i < |es|
      ensures es[i].Offer?
    {
      assert es[i] == es[b..][i - b];
    }
    forall i | d <= i < |es|
      ensures es[i].Offer?
    {
      assert es[i] == es[d..][i - d];
    }
  }

  lemma {:induction false} OneNewest(base: Cell, offers: seq<Event>, y: Cell, z: Cell)
    requires forall e :: e in offers ==> e.Offer?
    requires KeepsNewest(base, offers, y) && KeepsNewest(base, offers, z)
    ensures y == z
  {
    assert forall i :: 0 <= i < |offers| ==> offers[i].Offer?;
    if y != base && z != base {
      var i :| 0 <= i < |offers| && y == offers[i].Entry() && TakesOver(base, offers, i);
      var j :| 0 <= j < |offers| && z == offers[j].Entry() && TakesOver(base, offers, j);
      assert i == j;
    }
  }

  /** A history comes to one end only. */
  lemma {:induction false} OneEnd(x: Cell, es: seq<Event>, y: Cell, z: Cell)
    requires ComesTo(x, es, y) && ComesTo(x, es, z)
    ensures y == z
  {
    var b, base :| 0 <= b <= |es| && SinceLast(x, es, b, base) && KeepsNewest(base, es[b..], y);
    var d, other :| 0 <= d <= |es| && SinceLast(x, es, d, other) && KeepsNewest(other, es[d..], z);
    OneBase(x, es, b, base, d, other);
    OneNewest(base, es[b..], y, z);
  }
}
