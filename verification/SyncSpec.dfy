/** Last-writer-wins tables as values: a data table, and a journal of modification times that
    also remembers deletions. */
module SyncSpec {

  /** The primary key of both tables. */
  datatype Key = Key(uniqueId: string, userId: int)

  /** A change for some user: a state to store, or a deletion when the state is empty. */
  datatype Change = Change(uniqueId: string, lastModified: int, state: string) {
    predicate HasDiscriminator() {
      state != ""
    }
  }

  datatype Tables = Tables(rows: map<Key, string>, journal: map<Key, int>)

  const EMPTY := Tables(map[], map[])

  // ---- operations ----

  predicate IsRecent(t: Tables, k: Key, time: int) {
    k in t.journal ==> t.journal[k] < time
  }

  function Insert(t: Tables, k: Key, state: string, time: int): Tables {
    Tables(t.rows[k := state], t.journal[k := time])
  }

  function Delete(t: Tables, k: Key, time: int): Tables {
    Tables(t.rows - {k}, t.journal[k := time])
  }

  function Store(t: Tables, u: int, c: Change): Tables {
    if c.HasDiscriminator() then Insert(t, Key(c.uniqueId, u), c.state, c.lastModified)
    else Delete(t, Key(c.uniqueId, u), c.lastModified)
  }

  predicate Accepts(t: Tables, u: int, c: Change) {
    c.uniqueId != "" && IsRecent(t, Key(c.uniqueId, u), c.lastModified)
  }

  function MergeOne(t: Tables, u: int, c: Change): Tables {
    if Accepts(t, u, c) then Store(t, u, c) else t
  }

  /** A list of changes, in order. */
  function Merge(t: Tables, u: int, cs: seq<Change>): Tables {
    if cs == [] then t else MergeOne(Merge(t, u, cs[..|cs| - 1]), u, cs[|cs| - 1])
  }

  /** Which of the changes were accepted. */
  function Results(t: Tables, u: int, cs: seq<Change>): (r: seq<bool>)
    ensures |r| == |cs|
  {
    if cs == [] then []
    else Results(t, u, cs[..|cs| - 1]) + [Accepts(Merge(t, u, cs[..|cs| - 1]), u, cs[|cs| - 1])]
  }

  // ---- views ----

  /** Every data row has a journal entry. */
  ghost predicate Consistent(t: Tables) {
    t.rows.Keys <= t.journal.Keys
  }

  /** The stored state, empty for a tombstone: what the outer join yields. */
  function StateOf(t: Tables, k: Key): string {
    if k in t.rows then t.rows[k] else ""
  }

  /** One user's part of both tables. */
  ghost function UserPart(t: Tables, u: int): Tables {
    Tables(map k | k in t.rows && k.userId == u :: t.rows[k], map k | k in t.journal && k.userId == u :: t.journal[k])
  }

  ghost predicate SameAt(t: Tables, s: Tables, k: Key) {
    && (k in t.journal <==> k in s.journal) && (k in t.rows <==> k in s.rows)
    && (k in t.journal ==> t.journal[k] == s.journal[k])
    && (k in t.rows ==> t.rows[k] == s.rows[k])
  }

  lemma {:induction false} UserPartSame(t: Tables, s: Tables, u: int)
    ensures UserPart(t, u) == UserPart(s, u) <==> forall k: Key :: k.userId == u ==> SameAt(t, s, k)
  {
    var a, b := UserPart(t, u), UserPart(s, u);
    if a == b {
      forall k: Key | k.userId == u
        ensures SameAt(t, s, k)
      {
        assert k in a.journal <==> k in b.journal;
        assert k in a.rows <==> k in b.rows;
        assert k in a.journal ==> a.journal[k] == b.journal[k];
        assert k in a.rows ==> a.rows[k] == b.rows[k];
      }
    }
    if forall k: Key :: k.userId == u ==> SameAt(t, s, k) {
      forall k: Key | k.userId == u
        ensures SameAt(t, s, k)
      {
      }
      assert a.rows == b.rows;
      assert a.journal == b.journal;
    }
  }

  // ---- merging keeps the newest ----

  /** Change i is newer than the stored entry and than every earlier change of its key. */
  ghost predicate BeatsAll(t: Tables, u: int, cs: seq<Change>, i: nat)
    requires i < |cs|
  {
    && Accepts(t, u, cs[i])
    && forall j :: 0 <= j < i && cs[j].uniqueId == cs[i].uniqueId ==> cs[j].lastModified < cs[i].lastModified
  }

  /** The entry of key k after a merge: the old one, if no change is newer, or else that of the
      first change with the greatest time. */
  ghost predicate Newest(t: Tables, s: Tables, u: int, cs: seq<Change>, id: string) {
    var k := Key(id, u);
    && (k in t.journal ==> k in s.journal && t.journal[k] <= s.journal[k])
    && (forall j :: 0 <= j < |cs| && cs[j].uniqueId == id ==> k in s.journal && cs[j].lastModified <= s.journal[k])
    && (SameAt(t, s, k)
        || exists i :: 0 <= i < |cs| && cs[i].uniqueId == id && Holds(s, k, cs[i]) && BeatsAll(t, u, cs, i))
  }

  /** The tables hold exactly this change for key k. */
  ghost predicate Holds(s: Tables, k: Key, c: Change) {
    && k in s.journal && s.journal[k] == c.lastModified
    && (if c.HasDiscriminator() then k in s.rows && s.rows[k] == c.state else k !in s.rows)
  }

  /** A change that is not newer, or is one of another key, changes nothing. */
  lemma {:induction false} NewestKept(
      t: Tables, b: Tables, s: Tables, u: int, cs: seq<Change>, c: Change, id: string)
    requires Newest(t, b, u, cs, id) && SameAt(b, s, Key(id, u))
    requires c.uniqueId == id ==> Key(id, u) in b.journal && c.lastModified <= b.journal[Key(id, u)]
    ensures Newest(t, s, u, cs + [c], id)
  {
    var k, ds := Key(id, u), cs + [c];
    assert forall j :: 0 <= j < |cs| ==> ds[j] == cs[j];
    if !SameAt(t, b, k) {
      var i :| 0 <= i < |cs| && cs[i].uniqueId == id && Holds(b, k, cs[i]) && BeatsAll(t, u, cs, i);
      assert ds[i] == cs[i] && BeatsAll(t, u, ds, i) && Holds(s, k, ds[i]);
    }
  }

  /** A newer change takes over. */
  lemma {:induction false} NewestReplaced(
      t: Tables, b: Tables, s: Tables, u: int, cs: seq<Change>, c: Change, id: string)
    requires Newest(t, b, u, cs, id) && c.uniqueId == id && Accepts(b, u, c) && Holds(s, Key(id, u), c)
    ensures Newest(t, s, u, cs + [c], id)
  {
    var n, ds := |cs|, cs + [c];
    assert forall j :: 0 <= j < n ==> ds[j] == cs[j];
    assert ds[n] == c && BeatsAll(t, u, ds, n);
  }

  lemma {:induction false} MergeKeepsNewest(t: Tables, u: int, cs: seq<Change>, id: string)
    requires id != ""
    ensures Newest(t, Merge(t, u, cs), u, cs, id)
  {
    if cs != [] {
      var n := |cs| - 1;
      var front, c := cs[..n], cs[n];
      var before, after := Merge(t, u, front), Merge(t, u, cs);
      MergeKeepsNewest(t, u, front, id);
      assert front + [c] == cs;
      if c.uniqueId == id && Accepts(before, u, c) {
        assert Holds(after, Key(id, u), c);
        hide Merge, Newest, Holds, Accepts;
        NewestReplaced(t, before, after, u, front, c, id);
      } else {
        assert SameAt(before, after, Key(id, u));
        hide Merge, Newest;
        NewestKept(t, before, after, u, front, c, id);
      }
    }
  }

  /** A change is reported as done exactly when it beat everything before it. */
  lemma {:induction false} ResultsAreBeats(t: Tables, u: int, cs: seq<Change>, i: nat)
    requires i < |cs|
    ensures Results(t, u, cs)[i] <==> BeatsAll(t, u, cs, i)
  {
    var n := |cs| - 1;
    var front := cs[..n];
    if i < n {
      ResultsAreBeats(t, u, front, i);
      assert BeatsAll(t, u, front, i) <==> BeatsAll(t, u, cs, i);
    } else if cs[n].uniqueId != "" {
      MergeKeepsNewest(t, u, front, cs[n].uniqueId);
    }
  }

  // ---- other keys ----

  lemma {:induction false} MergeFrame(t: Tables, u: int, cs: seq<Change>, k: Key)
    requires k.userId != u || k.uniqueId == "" || forall j :: 0 <= j < |cs| ==> cs[j].uniqueId != k.uniqueId
    ensures SameAt(t, Merge(t, u, cs), k)
  {
    if cs != [] {
      MergeFrame(t, u, cs[..|cs| - 1], k);
    }
  }

  lemma {:induction false} MergeConsistent(t: Tables, u: int, cs: seq<Change>)
    requires Consistent(t)
    ensures Consistent(Merge(t, u, cs))
  {
    if cs != [] {
      MergeConsistent(t, u, cs[..|cs| - 1]);
    }
  }

  // ---- order and repetition do not matter ----

  /** Changes of one key with the same time are the same change. */
  ghost predicate TimesIdentify(cs: seq<Change>) {
    forall c, d :: c in cs && d in cs && c.uniqueId == d.uniqueId && c.lastModified == d.lastModified ==> c == d
  }

  /** If the merge of cs changed key k, the merge of any list with the same changes leaves the same there. */
  lemma {:induction false} SameChangesAt(t: Tables, u: int, cs: seq<Change>, ds: seq<Change>, id: string)
    requires id != "" && TimesIdentify(cs)
    requires forall c :: c in cs <==> c in ds
    requires !SameAt(t, Merge(t, u, cs), Key(id, u))
    ensures SameAt(Merge(t, u, cs), Merge(t, u, ds), Key(id, u))
  {
    var k, a, b := Key(id, u), Merge(t, u, cs), Merge(t, u, ds);
    MergeKeepsNewest(t, u, cs, id);
    MergeKeepsNewest(t, u, ds, id);
    hide Merge;
    var i :| 0 <= i < |cs| && cs[i].uniqueId == id && Holds(a, k, cs[i]) && BeatsAll(t, u, cs, i);
    assert cs[i] in ds;
    var i' :| 0 <= i' < |ds| && ds[i'] == cs[i];
    assert cs[i].lastModified <= b.journal[k];
    assert !SameAt(t, b, k);
    var j :| 0 <= j < |ds| && ds[j].uniqueId == id && Holds(b, k, ds[j]) && BeatsAll(t, u, ds, j);
    assert ds[j] in cs;
    var j' :| 0 <= j' < |cs| && cs[j'] == ds[j];
    assert cs[j'].lastModified <= a.journal[k];
    assert cs[i] in cs;
  }

  /** Neither the order of the changes matters nor how often each is given, when equal times of
      one key mean equal changes. */
  lemma {:induction false} MergeAnyOrder(t: Tables, u: int, cs: seq<Change>, ds: seq<Change>)
    requires TimesIdentify(cs)
    requires forall c :: c in cs <==> c in ds
    ensures Merge(t, u, cs) == Merge(t, u, ds)
  {
    var a, b := Merge(t, u, cs), Merge(t, u, ds);
    forall k: Key
      ensures SameAt(a, b, k)
    {
      if k.userId != u || k.uniqueId == "" {
        MergeFrame(t, u, cs, k);
        MergeFrame(t, u, ds, k);
      } else if !SameAt(t, a, k) {
        SameChangesAt(t, u, cs, ds, k.uniqueId);
      } else if !SameAt(t, b, k) {
        SameChangesAt(t, u, ds, cs, k.uniqueId);
      }
    }
    SameEverywhere(a, b);
  }

  /** In particular, with distinct times per key any permutation gives the same tables. */
  lemma {:induction false} MergePermutation(t: Tables, u: int, cs: seq<Change>, ds: seq<Change>)
    requires multiset(cs) == multiset(ds)
    requires forall i, j ::
               0 <= i < j < |cs| && cs[i].uniqueId == cs[j].uniqueId ==> cs[i].lastModified != cs[j].lastModified
    ensures Merge(t, u, cs) == Merge(t, u, ds)
  {
    forall c
      ensures c in cs <==> c in ds
    {
      assert c in cs <==> c in multiset(cs);
      assert c in ds <==> c in multiset(ds);
    }
    MergeAnyOrder(t, u, cs, ds);
  }

  lemma {:induction false} SameEverywhere(a: Tables, b: Tables)
    requires forall k: Key :: SameAt(a, b, k)
    ensures a == b
  {
    assert a.rows == b.rows by {
      assert forall k :: SameAt(a, b, k) ==> (k in a.rows <==> k in b.rows);
      assert forall k :: SameAt(a, b, k) && k in a.rows ==> a.rows[k] == b.rows[k];
    }
    assert a.journal == b.journal by {
      assert forall k :: SameAt(a, b, k) ==> (k in a.journal <==> k in b.journal);
      assert forall k :: SameAt(a, b, k) && k in a.journal ==> a.journal[k] == b.journal[k];
    }
  }

  /** Changes that are not newer than what is stored are refused, and change nothing. */
  lemma {:induction false} StaleChanges(t: Tables, u: int, cs: seq<Change>)
    requires forall i :: 0 <= i < |cs| ==> !Accepts(t, u, cs[i])
    ensures Merge(t, u, cs) == t
    ensures forall i :: 0 <= i < |cs| ==> !Results(t, u, cs)[i]
  {
    if cs != [] {
      StaleChanges(t, u, cs[..|cs| - 1]);
    }
  }

  /** Replaying a list, or any part of it in any order, changes nothing. */
  lemma {:induction false} Replay(t: Tables, u: int, cs: seq<Change>, ds: seq<Change>)
    requires forall d :: d in ds ==> d in cs
    ensures Merge(Merge(t, u, cs), u, ds) == Merge(t, u, cs)
    ensures forall i :: 0 <= i < |ds| ==> !Results(Merge(t, u, cs), u, ds)[i]
  {
    var s := Merge(t, u, cs);
    forall i | 0 <= i < |ds|
      ensures !Accepts(s, u, ds[i])
    {
      if ds[i].uniqueId != "" {
        MergeKeepsNewest(t, u, cs, ds[i].uniqueId);
        assert ds[i] in ds;
        var j :| 0 <= j < |cs| && cs[j] == ds[i];
        assert cs[j].lastModified <= s.journal[Key(ds[i].uniqueId, u)];
      }
    }
    StaleChanges(s, u, ds);
  }
}
