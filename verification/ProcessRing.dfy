/**
 The ring of processes and the timer interrupt that walks it. The ring is read from behind the
 current process, so the current one is its last element.
 */
module ProcessRing {
  type Ref = nat  // 0 is the null pointer

  datatype State = Terminated | Running | Suspended | Sleeping

  datatype Time = Time(seconds: nat, millisecond: nat)

  datatype Process = Process(id: nat, state: State, wake: Time, next: Ref, prev: Ref)

  function IdOf(m: map<Ref, Process>, r: Ref): int { if r in m then m[r].id else -1 }

  function StateOf(m: map<Ref, Process>, r: Ref): State { if r in m then m[r].state else Terminated }

  function WakeOf(m: map<Ref, Process>, r: Ref): Time { if r in m then m[r].wake else Time(0, 0) }

  /** A process is the same in both, up to its links. */
  predicate Alike(m: map<Ref, Process>, n: map<Ref, Process>, r: Ref) {
    IdOf(m, r) == IdOf(n, r) && StateOf(m, r) == StateOf(n, r) && WakeOf(m, r) == WakeOf(n, r)
  }

  function NextInRing(c: seq<Ref>, i: nat): Ref
    requires i < |c|
  {
    if i + 1 < |c| then c[i + 1] else c[0]
  }

  function PrevInRing(c: seq<Ref>, i: nat): Ref
    requires i < |c|
  {
    if i > 0 then c[i - 1] else c[|c| - 1]
  }

  ghost predicate Member(m: map<Ref, Process>, c: seq<Ref>, i: nat)
    requires i < |c|
  {
    c[i] in m && c[i] > 0 && m[c[i]].next == NextInRing(c, i) && m[c[i]].prev == PrevInRing(c, i)
  }

  ghost predicate Distinct(c: seq<Ref>) { forall i, j | 0 <= i < j < |c| :: c[i] != c[j] }

  ghost predicate Linked(m: map<Ref, Process>, c: seq<Ref>) {
    c != [] && Distinct(c) && forall i | 0 <= i < |c| :: Member(m, c, i)
  }

  ghost predicate UniqueIds(m: map<Ref, Process>, c: seq<Ref>) {
    forall a, b | a in c && b in c && a in m && b in m && m[a].id == m[b].id :: a == b
  }

  lemma MemberOf(m: map<Ref, Process>, c: seq<Ref>, i: nat)
    requires Linked(m, c) && i < |c|
    ensures Member(m, c, i)
  {
  }

  function Rotated<T>(c: seq<T>): (d: seq<T>)
    requires c != []
    ensures |d| == |c|
  {
    c[1..] + [c[0]]
  }

  lemma RotateLinked(m: map<Ref, Process>, c: seq<Ref>)
    requires Linked(m, c)
    ensures Linked(m, Rotated(c)) && forall a :: a in Rotated(c) <==> a in c
    ensures UniqueIds(m, c) ==> UniqueIds(m, Rotated(c))
  {
    var d := Rotated(c);
    forall i | 0 <= i < |d| ensures Member(m, d, i) {
      MemberOf(m, c, if i + 1 < |c| then i + 1 else 0);
    }
    forall a ensures a in d <==> a in c {
      if a in c {
        var i :| 0 <= i < |c| && c[i] == a;
        assert d[if i > 0 then i - 1 else |c| - 1] == a;
      }
    }
  }

  lemma RotatedFront<T>(c: seq<T>)
    requires c != []
    ensures Rotated(c)[..|c| - 1] == c[1..]
  {
  }

  function Without<T>(c: seq<T>, i: nat): (d: seq<T>)
    requires i < |c|
    ensures |d| == |c| - 1
  {
    c[..i] + c[i + 1..]
  }

  /** Taking a process out: its neighbours are linked to each other. */
  function Unlinked(m: map<Ref, Process>, r: Ref): map<Ref, Process>
    requires r in m
  {
    var p, n := m[r].prev, m[r].next;
    var m1 := if p in m then m[p := m[p].(next := n)] else m;
    var m2 := if n in m1 then m1[n := m1[n].(prev := p)] else m1;
    m2 - {r}
  }

  lemma UnlinkedIs(m: map<Ref, Process>, r: Ref, x: Ref)
    requires r in m && m[r].prev in m && m[r].next in m && x in m && x != r && m[r].prev != r && m[r].next != r
    ensures x in Unlinked(m, r)
    ensures Unlinked(m, r)[x] == m[x].(next := if x == m[r].prev then m[r].next else m[x].next,
                                       prev := if x == m[r].next then m[r].prev else m[x].prev)
  {
  }

  lemma WithoutPlaces(c: seq<Ref>, k: nat, i: nat)
    requires Distinct(c) && |c| >= 2 && k < |c| && i < |c| - 1
    ensures var d, j := Without(c, k), if i < k then i else i + 1;
      && d[i] == c[j]
      && NextInRing(d, i) == (if NextInRing(c, j) == c[k] then NextInRing(c, k) else NextInRing(c, j))
      && PrevInRing(d, i) == (if PrevInRing(c, j) == c[k] then PrevInRing(c, k) else PrevInRing(c, j))
  {
  }

  lemma RemoveLinked(m: map<Ref, Process>, c: seq<Ref>, k: nat)
    requires Linked(m, c) && |c| >= 2 && k < |c|
    ensures c[k] in m && Linked(Unlinked(m, c[k]), Without(c, k))
    ensures forall a | a in Without(c, k) :: a in c && a != c[k]
    ensures forall a | a in c && a != c[k] :: a in Without(c, k)
  {
    hide Unlinked, Without, Member;
    MemberIn(m, c, k);
    WithoutHolds(c, k);
    forall i | 0 <= i < |c| - 1 ensures Member(Unlinked(m, c[k]), Without(c, k), i) {
      RemoveMember(m, c, k, i);
    }
  }

  lemma MemberIn(m: map<Ref, Process>, c: seq<Ref>, k: nat)
    requires Linked(m, c) && k < |c|
    ensures c[k] in m
  {
    MemberOf(m, c, k);
  }

  lemma RemoveMember(m: map<Ref, Process>, c: seq<Ref>, k: nat, i: nat)
    requires Linked(m, c) && |c| >= 2 && k < |c| && i < |c| - 1
    ensures c[k] in m && Member(Unlinked(m, c[k]), Without(c, k), i)
  {
    hide Linked, Unlinked;
    var j := if i < k then i else i + 1;
    MemberOf(m, c, k);
    MemberOf(m, c, if k > 0 then k - 1 else |c| - 1);
    MemberOf(m, c, if k + 1 < |c| then k + 1 else 0);
    MemberOf(m, c, j);
    LinkedApart(m, c);
    WithoutPlaces(c, k, i);
    UnlinkedIs(m, c[k], c[j]);
  }

  lemma LinkedApart(m: map<Ref, Process>, c: seq<Ref>)
    requires Linked(m, c)
    ensures Distinct(c)
  {
  }

  lemma WithoutHolds(c: seq<Ref>, k: nat)
    requires Distinct(c) && k < |c|
    ensures Distinct(Without(c, k))
    ensures forall a | a in Without(c, k) :: a in c && a != c[k]
    ensures forall a | a in c && a != c[k] :: a in Without(c, k)
  {
    var d := Without(c, k);
    forall a | a in c && a != c[k] ensures a in d {
      var i :| 0 <= i < |c| && c[i] == a;
      assert d[if i < k then i else i - 1] == a;
    }
  }

  function Inserted(m: map<Ref, Process>, r: Ref, p: Process): map<Ref, Process>
    requires p.prev in m && p.next in m && r !in m
  {
    var m1 := m[r := p];
    var m2 := m1[p.next := m1[p.next].(prev := r)];
    m2[p.prev := m2[p.prev].(next := r)]
  }

  /** A new member between the last one and the first. */
  lemma InsertLinked(m: map<Ref, Process>, c: seq<Ref>, r: Ref, p: Process)
    requires Linked(m, c) && r !in m && r > 0 && p.next == c[0] && p.prev == c[|c| - 1]
    ensures p.prev in m && p.next in m && Linked(Inserted(m, r, p), c + [r])
    ensures Linked(Inserted(m, r, p), [r] + c)
  {
    MemberOf(m, c, 0);
    MemberOf(m, c, |c| - 1);
    var n, d := Inserted(m, r, p), c + [r];
    assert forall i | 0 <= i < |c| :: c[i] in m by {
      forall i | 0 <= i < |c| ensures c[i] in m { MemberOf(m, c, i); }
    }
    forall i | 0 <= i < |d| ensures Member(n, d, i) {
      if i < |c| { MemberOf(m, c, i); }
    }
    LastToFront(n, c, r);
  }

  /** The ring read from member `f` on. */
  function From<T>(c: seq<T>, f: nat): (d: seq<T>)
    requires f < |c|
    ensures |d| == |c|
  {
    c[f..] + c[..f]
  }

  /** The ring can be read from any member. */
  lemma LastToFront(m: map<Ref, Process>, c: seq<Ref>, r: Ref)
    requires Linked(m, c + [r]) && c != []
    ensures Linked(m, [r] + c)
  {
    var d := c + [r];
    ReadFrom(m, d, |c|);
    assert From(d, |c|) == [r] + c;
  }

  lemma {:induction false} ReadFrom(m: map<Ref, Process>, c: seq<Ref>, k: nat)
    requires Linked(m, c) && k < |c|
    ensures Linked(m, From(c, k))
    decreases k
  {
    if k == 0 {
      assert From(c, 0) == c;
    } else {
      RotateLinked(m, c);
      ReadFrom(m, Rotated(c), k - 1);
      assert From(Rotated(c), k - 1) == From(c, k);
    }
  }

  function PutAt<T>(c: seq<T>, f: nat, r: T): (d: seq<T>)
    requires f <= |c|
    ensures |d| == |c| + 1
  {
    c[..f] + [r] + c[f..]
  }

  /** A new member before any given one. */
  lemma InsertBefore(m: map<Ref, Process>, c: seq<Ref>, f: nat, r: Ref, p: Process)
    requires Linked(m, c) && f < |c| && r !in m && r > 0 && p.next == c[f] && p.prev == PrevInRing(c, f)
    ensures p.prev in m && p.next in m && Linked(Inserted(m, r, p), PutAt(c, f, r))
  {
    var d, k := From(c, f), |c| - f;
    ReadFrom(m, c, f);
    InsertLinked(m, d, r, p);
    hide Inserted, Linked;
    ReadFrom(Inserted(m, r, p), d + [r], k);
    assert From(d + [r], k) == PutAt(c, f, r);
  }

  ghost predicate PutBefore(c: seq<Ref>, d: seq<Ref>, x: Ref, r: Ref) {
    exists f :: 0 <= f < |c| && c[f] == x && d == PutAt(c, f, r)
  }

  lemma InsertIds(m: map<Ref, Process>, c: seq<Ref>, f: nat, r: Ref, p: Process)
    requires UniqueIds(m, c) && f < |c| && r !in m && p.next in m && p.prev in m && forall a | a in m :: m[a].id < p.id
    ensures UniqueIds(Inserted(m, r, p), PutAt(c, f, r))
    ensures forall a :: a in PutAt(c, f, r) <==> a == r || a in c
    ensures PutBefore(c, PutAt(c, f, r), c[f], r)
    ensures f < |c| && (PutAt(c, f, r))[|c|] == c[|c| - 1]
    ensures Keeps(m, Inserted(m, r, p))
    ensures forall a | a in Inserted(m, r, p) :: a == r || a in m
  {
    PutAtHolds(c, f, r);
    var n, d := Inserted(m, r, p), PutAt(c, f, r);
    InsertedIds(m, r, p);
    assert PutBefore(c, d, c[f], r) && d[|c|] == c[|c| - 1];
    hide Inserted, PutAt, PutBefore;
    forall a, b | a in d && b in d && a in n && b in n && n[a].id == n[b].id ensures a == b {
      assert (a == r || a in c) && (b == r || b in c);
    }
  }

  lemma PutAtHolds(c: seq<Ref>, f: nat, r: Ref)
    requires f < |c|
    ensures forall a :: a in PutAt(c, f, r) <==> a == r || a in c
  {
    var d := PutAt(c, f, r);
    forall a ensures a in d <==> a == r || a in c {
      if a in c {
        var i :| 0 <= i < |c| && c[i] == a;
        assert d[if i < f then i else i + 1] == a;
      }
      assert d[f] == r;
    }
  }

  lemma InsertedIds(m: map<Ref, Process>, r: Ref, p: Process)
    requires r !in m && p.next in m && p.prev in m
    ensures var n := Inserted(m, r, p);
      Keeps(m, n) && r in n && n[r].id == p.id && forall a | a in n && a != r :: a in m && n[a].id == m[a].id
  {
  }

  lemma FromAt(c: seq<Ref>, f: nat, i: nat) returns (k: nat)
    requires f < |c| && i < |c|
    ensures k < |c| && From(c, f)[i] == c[k] && (i == 0 ==> k == f)
  {
    k := if i < |c| - f then f + i else i - (|c| - f);
  }

  lemma Reread(c: seq<Ref>, f: nat)
    requires f < |c|
    ensures forall a :: a in From(c, f) <==> a in c
  {
    var d := From(c, f);
    forall a ensures a in d <==> a in c {
      if a in c {
        var i :| 0 <= i < |c| && c[i] == a;
        assert d[if i >= f then i - f else i + |c| - f] == a;
      }
    }
  }

  /** Back at the first member, all have been seen. */
  lemma Came(c: seq<Ref>, i: nat)
    requires Distinct(c) && i < |c| && NextInRing(c, i) == c[0]
    ensures i + 1 == |c|
  {
  }

  lemma Positive(m: map<Ref, Process>, c: seq<Ref>)
    requires Linked(m, c)
    ensures forall r | r in c :: r in m && r > 0
  {
    forall r | r in c ensures r in m && r > 0 {
      var i :| 0 <= i < |c| && c[i] == r;
      MemberOf(m, c, i);
    }
  }

  lemma NeighboursOf(m: map<Ref, Process>, c: seq<Ref>, k: nat)
    requires Linked(m, c) && |c| >= 2 && k < |c|
    ensures c[k] in m && m[c[k]].prev in m && m[c[k]].next in m && m[c[k]].next in Without(c, k)
    ensures k < |c| - 1 ==> Without(c, k)[|c| - 2] == c[|c| - 1]
    ensures forall j | 0 <= j < |c| && c[j] == c[k] :: j == k
  {
    MemberOf(m, c, k);
    MemberOf(m, c, if k > 0 then k - 1 else |c| - 1);
    MemberOf(m, c, if k + 1 < |c| then k + 1 else 0);
    assert NextInRing(c, k) == Without(c, k)[if k + 1 < |c| then k else 0];
  }

  /** Nothing but links changes when a process is taken out. */
  lemma UnlinkedKeeps(m: map<Ref, Process>, r: Ref)
    requires r in m && m[r].prev in m && m[r].next in m
    ensures forall x :: x in Unlinked(m, r) <==> x in m && x != r
    ensures forall x | x in m && x != r :: Alike(Unlinked(m, r), m, x)
  {
  }

  lemma IdsWithout(m: map<Ref, Process>, c: seq<Ref>, n: map<Ref, Process>, d: seq<Ref>)
    requires UniqueIds(m, c) && (forall r | r in d :: r in c && r in n && r in m && IdOf(n, r) == IdOf(m, r))
    ensures UniqueIds(n, d)
  {
    forall a, b | a in d && b in d && a in n && b in n && n[a].id == n[b].id ensures a == b {
      assert IdOf(n, a) == IdOf(m, a) && IdOf(n, b) == IdOf(m, b);
    }
  }

  // ---------- the walk of the timer ----------

  predicate Due(now: Time, wake: Time) { now.seconds >= wake.seconds && now.millisecond >= wake.millisecond }

  predicate SleepsOn(m: map<Ref, Process>, now: Time, r: Ref) {
    r in m && m[r].state == Sleeping && !Due(now, m[r].wake)
  }

  predicate CanRun(m: map<Ref, Process>, now: Time, r: Ref) {
    r in m && (m[r].state == Running || (m[r].state == Sleeping && Due(now, m[r].wake)))
  }

  /** The member behind one that sleeps on is removed in its place: the branch for sleeping processes
      falls through. One that is removed this way is not looked at itself. */
  predicate Killed(m: map<Ref, Process>, now: Time, c: seq<Ref>, i: nat)
    requires i < |c|
  {
    i > 0 && !Killed(m, now, c, i - 1) && SleepsOn(m, now, c[i - 1])
  }

  /** Those before `k` that are left when the tick comes to `k`. */
  function Survivors(m: map<Ref, Process>, now: Time, c: seq<Ref>, k: nat): (d: seq<Ref>)
    requires k <= |c|
    ensures |d| <= k
  {
    if k == 0 then []
    else Survivors(m, now, c, k - 1)
         + if Killed(m, now, c, k - 1) || StateOf(m, c[k - 1]) == Terminated then [] else [c[k - 1]]
  }

  /** The ring after a tick that ends at member `k`. */
  function Ticked(m: map<Ref, Process>, now: Time, c: seq<Ref>, k: nat): seq<Ref>
    requires k < |c|
  {
    c[k + 1..] + Survivors(m, now, c, k) + [c[k]]
  }

  /** Member `k` is looked at, and runs or is due. */
  predicate Ready(m: map<Ref, Process>, now: Time, c: seq<Ref>, k: nat)
    requires k < |c|
  {
    !Killed(m, now, c, k) && CanRun(m, now, c[k])
  }

  ghost predicate SomeReady(m: map<Ref, Process>, now: Time, c: seq<Ref>) {
    exists k :: 0 <= k < |c| && Ready(m, now, c, k)
  }

  ghost predicate FirstReady(m: map<Ref, Process>, now: Time, c: seq<Ref>, k: nat) {
    k < |c| && Ready(m, now, c, k) && forall i | 0 <= i < k :: !Ready(m, now, c, i)
  }

  /** The ring after one turn of the loop of the interrupt, with the candidate as its last member. */
  function Turn(m: map<Ref, Process>, now: Time, d: seq<Ref>): seq<Ref> {
    if d == [] then []
    else
      var x := d[|d| - 1];
      if CanRun(m, now, x) then d
      else if SleepsOn(m, now, x) then (if |d| == 1 then [] else Rotated(d[1..]))
      else if StateOf(m, x) == Terminated then (if |d| == 1 then [] else Rotated(d[..|d| - 1]))
      else Rotated(d)
  }

  /** The state of the scheduler: a ring that holds all processes and ends with the current one. */
  ghost predicate Sound(m: map<Ref, Process>, c: seq<Ref>, first: Ref, current: Ref, freePid: nat, newRef: Ref,
      count: nat) {
    && newRef > 0 && count == |c| && (forall r | r in m :: r < newRef && m[r].id < freePid) &&
      (forall r :: r in m <==> r in c)
    && if c == [] then first == 0 && current == 0
       else Linked(m, c) && UniqueIds(m, c) && first in c && (current != 0 ==> current == c[|c| - 1])
  }

  lemma SoundIn(m: map<Ref, Process>, c: seq<Ref>, first: Ref, current: Ref, freePid: nat, newRef: Ref, count: nat)
    requires Sound(m, c, first, current, freePid, newRef, count)
    ensures forall r | r in c :: r in m && r > 0
    ensures current != 0 ==> c != [] && current == c[|c| - 1] && current in c
  {
    if c != [] { Positive(m, c); }
  }

  lemma SizeOf(m: map<Ref, Process>, c: seq<Ref>, first: Ref, current: Ref, freePid: nat, newRef: Ref, count: nat)
    requires Sound(m, c, first, current, freePid, newRef, count)
    ensures count == |c|
  {
  }

  lemma FirstOf(m: map<Ref, Process>, c: seq<Ref>, first: Ref, current: Ref, freePid: nat, newRef: Ref,
      count: nat) returns (f: nat)
    requires Sound(m, c, first, current, freePid, newRef, count) && c != []
    ensures f < |c| && c[f] == first && first in m && m[first].prev == PrevInRing(c, f) && count == |c|
  {
    f :| 0 <= f < |c| && c[f] == first;
    MemberOf(m, c, f);
  }

  lemma SameId(m: map<Ref, Process>, c: seq<Ref>, first: Ref, current: Ref, freePid: nat, newRef: Ref, count: nat,
      i: nat, j: nat)
    requires Sound(m, c, first, current, freePid, newRef, count) && i < |c| && j < |c| && IdOf(m, c[i]) == IdOf(m, c[j])
    ensures i == j
  {
    Positive(m, c);
    Apart(c, i, j);
    assert c[i] in c && c[j] in c;
  }

  /** The search begins at the first process, from which the ring reads the same. */
  lemma SearchStart(m: map<Ref, Process>, c: seq<Ref>, first: Ref, current: Ref, freePid: nat, newRef: Ref,
      count: nat) returns (f: nat)
    requires Sound(m, c, first, current, freePid, newRef, count) && c != []
    ensures f < |c| && var d := From(c, f);
      |d| == |c| && d[0] == first && Distinct(d) && Linked(m, d) && Member(m, d, 0)
  {
    f := FirstOf(m, c, first, current, freePid, newRef, count);
    ReadFrom(m, c, f);
    MemberOf(m, From(c, f), 0);
  }

  lemma SoundRemove(m: map<Ref, Process>, c: seq<Ref>, first: Ref, current: Ref, freePid: nat, newRef: Ref, k: nat)
    requires Sound(m, c, first, current, freePid, newRef, |c|) && k < |c| && |c| > 1 && current != c[k]
    ensures c[k] in m && m[c[k]].prev in m && m[c[k]].next in m
    ensures var r := c[k];
      Sound(Unlinked(m, r), Without(c, k), if r == first then m[r].next else first, current, freePid, newRef, |c| - 1)
    ensures var n, d := Unlinked(m, c[k]), Without(c, k);
      && (forall r :: r in d <==> r in c && r != c[k])
      && (forall r | r in d :: Alike(n, m, r))
    ensures forall j | 0 <= j < |c| && c[j] == c[k] :: j == k
  {
    Positive(m, c);
    NeighboursOf(m, c, k);
    RemoveLinked(m, c, k);
    UnlinkedKeeps(m, c[k]);
    IdsWithout(m, c, Unlinked(m, c[k]), Without(c, k));
    hide Linked, UniqueIds;
    UnlinkedIds(m, c[k], freePid);
    hide Unlinked, Without;
  }

  lemma UnlinkedIds(m: map<Ref, Process>, r: Ref, freePid: nat)
    requires r in m && forall x | x in m :: m[x].id < freePid
    ensures forall x | x in Unlinked(m, r) :: Unlinked(m, r)[x].id < freePid
  {
  }

  /** All processes are still there, with their states and identifiers. */
  ghost predicate Keeps(m: map<Ref, Process>, n: map<Ref, Process>) {
    forall a | a in m :: a in n && Alike(n, m, a)
  }

  lemma KeepsAll(m: map<Ref, Process>, r: Ref, p: Process)
    requires r !in m
    ensures Keeps(m, m[r := p])
  {
  }

  lemma OnlyOne(r: Ref, id: nat, state: State, wake: Time)
    requires r > 0
    ensures var m := map[r := Process(id, state, wake, r, r)]; Linked(m, [r]) && UniqueIds(m, [r])
  {
  }

  lemma SoundCreate(m: map<Ref, Process>, c: seq<Ref>, first: Ref, current: Ref, freePid: nat, newRef: Ref, f: nat,
      p: Process)
    requires Sound(m, c, first, current, freePid, newRef, |c|) && f < |c| && c[f] == first
    requires p.id == freePid && p.next == first && p.prev == PrevInRing(c, f)
    ensures p.prev in m && p.next in m && newRef !in m
    ensures Sound(Inserted(m, newRef, p), PutAt(c, f, newRef), first, current, freePid + 1, newRef + 1, |c| + 1)
    ensures PutBefore(c, PutAt(c, f, newRef), first, newRef)
    ensures var n := Inserted(m, newRef, p); newRef in n && n[newRef].state == p.state && n[newRef].id == p.id
    ensures Keeps(m, Inserted(m, newRef, p))
  {
    Positive(m, c);
    MemberOf(m, c, f);
    MemberOf(m, c, if f > 0 then f - 1 else |c| - 1);
    InsertBefore(m, c, f, newRef, p);
    InsertIds(m, c, f, newRef, p);
    KeepsIds(m, Inserted(m, newRef, p));
    NewEntry(m, newRef, p);
    hide Inserted, Sound, PutAt, Keeps, PutBefore;
    SoundCreated(m, c, first, current, freePid, newRef, f, Inserted(m, newRef, p), PutAt(c, f, newRef));
  }

  lemma KeepsIds(m: map<Ref, Process>, n: map<Ref, Process>)
    requires Keeps(m, n)
    ensures forall a | a in m :: a in n && n[a].id == m[a].id
  {
    assert forall a | a in m :: Alike(n, m, a);
  }

  lemma NewEntry(m: map<Ref, Process>, r: Ref, p: Process)
    requires p.prev in m && p.next in m && r !in m
    ensures var n := Inserted(m, r, p); r in n && n[r].state == p.state && n[r].id == p.id
  {
  }

  lemma SoundCreated(m: map<Ref, Process>, c: seq<Ref>, first: Ref, current: Ref, freePid: nat, newRef: Ref, f: nat,
      n: map<Ref, Process>, d: seq<Ref>)
    requires Sound(m, c, first, current, freePid, newRef, |c|) && f < |c| && Linked(n, d) && UniqueIds(n, d)
    requires |d| == |c| + 1 && d[|c|] == c[|c| - 1] && forall a :: a in d <==> a == newRef || a in c
    requires newRef in n && n[newRef].id == freePid && (forall a | a in m :: a in n && n[a].id == m[a].id) &&
      forall a | a in n :: a == newRef || a in m
    ensures Sound(n, d, first, current, freePid + 1, newRef + 1, |c| + 1)
  {
    hide Linked, UniqueIds;
  }

  lemma Apart(c: seq<Ref>, i: nat, j: nat)
    requires Distinct(c) && i < |c| && j < |c|
    ensures c[i] == c[j] <==> i == j
  {
  }

  lemma SoundReread(m: map<Ref, Process>, c: seq<Ref>, first: Ref, current: Ref, freePid: nat, newRef: Ref, count: nat,
      k: nat)
    requires Sound(m, c, first, current, freePid, newRef, count) && k < |c|
    ensures var d := From(c, if k + 1 < |c| then k + 1 else 0); Sound(m, d, first, c[k], freePid, newRef, count)
    ensures c[k] in m && c[k] in From(c, if k + 1 < |c| then k + 1 else 0)
  {
    var j := if k + 1 < |c| then k + 1 else 0;
    assert From(c, j)[|c| - 1] == c[k];
    ReadFrom(m, c, j);
    Reread(c, j);
    Positive(m, c);
    hide Linked, From;
  }

  lemma WakeSound(m: map<Ref, Process>, c: seq<Ref>, r: Ref)
    requires c != [] && Linked(m, c) && UniqueIds(m, c) && r in m
    ensures var n := m[r := m[r].(state := Running)]; Linked(n, c) && UniqueIds(n, c)
  {
    var n := m[r := m[r].(state := Running)];
    forall i | 0 <= i < |c| ensures Member(n, c, i) {
      MemberOf(m, c, i);
    }
  }

  lemma {:induction false} SurvivorsIn(m: map<Ref, Process>, now: Time, c: seq<Ref>, k: nat)
    requires k <= |c|
    ensures forall r | r in Survivors(m, now, c, k) :: r in c[..k]
  {
    if k > 0 {
      SurvivorsIn(m, now, c, k - 1);
      assert c[..k] == c[..k - 1] + [c[k - 1]];
    }
  }

  /** Exactly the terminated ones, and those behind one that sleeps on, are gone. */
  lemma {:induction false} SurvivorsAre(m: map<Ref, Process>, now: Time, c: seq<Ref>, k: nat, i: nat)
    requires Distinct(c) && i < k <= |c|
    ensures c[i] in Survivors(m, now, c, k) <==> !Killed(m, now, c, i) && StateOf(m, c[i]) != Terminated
  {
    if i == k - 1 {
      SurvivorsIn(m, now, c, k - 1);
    } else {
      SurvivorsAre(m, now, c, k - 1, i);
    }
  }

  /** What a tick that ends at member `k` removes. */
  lemma Removed(m: map<Ref, Process>, now: Time, c: seq<Ref>, k: nat, i: nat)
    requires Distinct(c) && FirstReady(m, now, c, k) && i < |c|
    ensures c[i] !in Ticked(m, now, c, k) <==> i < k && (Killed(m, now, c, i) || StateOf(m, c[i]) == Terminated)
  {
    if i < k {
      SurvivorsAre(m, now, c, k, i);
    } else if i > k {
      assert c[k + 1..][i - k - 1] == c[i];
    }
  }

  /** Without sleepers nothing but terminated processes goes. */
  lemma {:induction false} NoneKilled(m: map<Ref, Process>, now: Time, c: seq<Ref>, i: nat)
    requires i < |c| && forall r | r in c :: StateOf(m, r) != Sleeping
    ensures !Killed(m, now, c, i)
  {
    if i > 0 { assert c[i - 1] in c; }
  }

  /** A running process behind one that sleeps on is removed. */
  lemma RunningRemoved(wake: Time, now: Time)
    requires !Due(now, wake)
    ensures var m := map[1 := Process(1, Sleeping, wake, 2, 3), 2 := Process(2, Running, wake, 3, 1),
                         3 := Process(3, Running, wake, 1, 2)];
      Linked(m, [1, 2, 3]) && UniqueIds(m, [1, 2, 3]) && FirstReady(m, now, [1, 2, 3], 2) &&
        Ticked(m, now, [1, 2, 3], 2) == [1, 3]
  {
    var m := map[1 := Process(1, Sleeping, wake, 2, 3), 2 := Process(2, Running, wake, 3, 1),
                 3 := Process(3, Running, wake, 1, 2)];
    var c := [1, 2, 3];
    assert !Killed(m, now, c, 0);
    assert Killed(m, now, c, 1);
    assert Survivors(m, now, c, 1) == [1];
    assert Survivors(m, now, c, 2) == [1];
  }

  /** A member is removed in the place of a sleeper exactly when an odd number of processes that sleep on
      stand just before it. */
  lemma {:induction false} SleepersBefore(m: map<Ref, Process>, now: Time, c: seq<Ref>, i: nat, n: nat)
    requires n <= i < |c| && (forall j | i - n <= j < i :: SleepsOn(m, now, c[j]))
    requires n < i ==> !SleepsOn(m, now, c[i - n - 1])
    ensures Killed(m, now, c, i) <==> n % 2 == 1
    decreases n
  {
    if n > 0 { SleepersBefore(m, now, c, i - 1, n - 1); }
  }

  /** The process that a tick comes to was running, or asleep with both parts of its time reached; a process
      before it that was running, or asleep like that, stood behind a sleeper. */
  lemma PickedIs(m: map<Ref, Process>, now: Time, c: seq<Ref>, k: nat, i: nat)
    requires FirstReady(m, now, c, k) && i < k
    ensures var p := m[c[k]];
      p.state == Running || (p.state == Sleeping && now.seconds >= p.wake.seconds &&
        now.millisecond >= p.wake.millisecond)
    ensures c[i] in m && m[c[i]].state in {Running, Sleeping} ==>
      || (i > 0 && c[i - 1] in m && m[c[i - 1]].state == Sleeping)
      || (m[c[i]].state == Sleeping &&
          (now.seconds < m[c[i]].wake.seconds || now.millisecond < m[c[i]].wake.millisecond))
  {
    assert !Ready(m, now, c, i);
  }

  predicate Passed(now: Time, wake: Time) {
    1000 * now.seconds + now.millisecond >= 1000 * wake.seconds + wake.millisecond
  }

  /** The test for waking compares seconds and milliseconds apart: of the times that have passed, it sees those
      in the later part of a second, and not the start of a second that the clock still counts as 1000. */
  lemma DueIs(now: Time, wake: Time)
    requires now.millisecond <= 1000
    ensures Due(now, wake) <==>
      Passed(now, wake) && now.millisecond >= wake.millisecond &&
        !(now.millisecond == 1000 && wake == Time(now.seconds + 1, 0))
  {
  }

  /** Two times that have passed and are not seen. */
  lemma PassedUnseen()
    ensures Passed(Time(2, 10), Time(1, 500)) && !Due(Time(2, 10), Time(1, 500))
    ensures Passed(Time(0, 1000), Time(1, 0)) && !Due(Time(0, 1000), Time(1, 0))
  {
  }

  /** A tick over the ring `c` has come to its member `k`; the ring is now `d`. */
  ghost predicate Walk(m: map<Ref, Process>, now: Time, c: seq<Ref>, k: int, d: seq<Ref>) {
    && 0 <= k < |c| && !Killed(m, now, c, k) && d == Ticked(m, now, c, k)
    && forall i | 0 <= i < k :: !Ready(m, now, c, i)
  }

  ghost predicate AllAlike(m: map<Ref, Process>, n: map<Ref, Process>, d: seq<Ref>) {
    forall r | r in d :: r in n && Alike(n, m, r)
  }

  lemma WalkStart(m: map<Ref, Process>, now: Time, c: seq<Ref>)
    requires c != []
    ensures Walk(m, now, c, 0, Rotated(c)) && forall r | r in Rotated(c) :: r in c
  {
  }

  /** One member more is passed, and the one behind it too if it is removed in its place. */
  lemma WalkNext(m: map<Ref, Process>, now: Time, c: seq<Ref>, k: nat, d: seq<Ref>)
    requires Walk(m, now, c, k, d) && !CanRun(m, now, c[k]) && (forall r | r in c :: r in m)
    ensures var k' := if SleepsOn(m, now, c[k]) then k + 2 else k + 1;
      (k' < |c| ==> |d| > 1 && Walk(m, now, c, k', Turn(m, now, d))) && (SomeReady(m, now, c) ==> k' < |c|)
  {
    hide Survivors, Ticked, Turn, Rotated;
    var k' := if SleepsOn(m, now, c[k]) then k + 2 else k + 1;
    assert k + 1 < |c| ==> Killed(m, now, c, k + 1) == SleepsOn(m, now, c[k]);
    assert forall i | 0 <= i < k' && i < |c| :: !Ready(m, now, c, i);
    if k' < |c| { TurnIs(m, now, c, k); }
  }

  lemma TurnIs(m: map<Ref, Process>, now: Time, c: seq<Ref>, k: nat)
    requires k + 1 < |c| && c[k] in m && !Killed(m, now, c, k) && !CanRun(m, now, c[k])
    requires SleepsOn(m, now, c[k]) ==> k + 2 < |c| && Killed(m, now, c, k + 1)
    ensures var d, k' := Ticked(m, now, c, k), if SleepsOn(m, now, c[k]) then k + 2 else k + 1;
      |d| > 1 && Turn(m, now, d) == Ticked(m, now, c, k')
  {
    hide Survivors, Rotated, Killed;
    var x, a := c[k + 1..], Survivors(m, now, c, k);
    assert x[0] == c[k + 1] && x[1..] == c[k + 2..];
    RotateParts(x, a, c[k]);
    SurvivorsStep(m, now, c, k);
    if SleepsOn(m, now, c[k]) {
      SurvivorsStep(m, now, c, k + 1);
      assert x[1..][0] == c[k + 2] && x[1..][1..] == c[k + 3..];
      SkipParts(x, a, c[k]);
    }
  }

  lemma SurvivorsStep(m: map<Ref, Process>, now: Time, c: seq<Ref>, k: nat)
    requires k < |c|
    ensures Survivors(m, now, c, k + 1) == Survivors(m, now, c, k)
              + if Killed(m, now, c, k) || StateOf(m, c[k]) == Terminated then [] else [c[k]]
  {
  }

  lemma WalkEnds(m: map<Ref, Process>, now: Time, c: seq<Ref>, k: int, d: seq<Ref>)
    requires Walk(m, now, c, k, d)
    ensures 0 <= k < |c| && d == Ticked(m, now, c, k) && d != [] && d[|d| - 1] == c[k] && c[k] in c && c[k] in d
    ensures CanRun(m, now, c[k]) ==> FirstReady(m, now, c, k)
    ensures k == 0 ==> |d| == |c|
  {
  }

  /** The candidate was due and has been woken. */
  ghost predicate Woken(m: map<Ref, Process>, now: Time, c: seq<Ref>, k: int, n: map<Ref, Process>, d: seq<Ref>) {
    && 0 <= k < |c| && CanRun(m, now, c[k]) && StateOf(n, c[k]) == Running
    && forall r | r in d && r != c[k] :: Alike(n, m, r)
  }

  lemma TickStart(m: map<Ref, Process>, now: Time, c: seq<Ref>, first: Ref, current: Ref, freePid: nat, newRef: Ref,
      count: nat)
    requires Sound(m, c, first, current, freePid, newRef, count) && c != []
    ensures Walk(m, now, c, 0, Rotated(c)) && AllAlike(m, m, Rotated(c)) && forall r | r in c :: r in m
    ensures Rotated(c)[|c| - 1] == c[0]
  {
    Positive(m, c);
    WalkStart(m, now, c);
  }

  /** The loop decides by states and times that are still those of the start. */
  lemma TurnSame(m: map<Ref, Process>, n: map<Ref, Process>, now: Time, d: seq<Ref>)
    requires AllAlike(m, n, d) && d != [] && forall r | r in d :: r in m
    ensures var x := d[|d| - 1]; CanRun(n, now, x) == CanRun(m, now, x) && SleepsOn(n, now, x) == SleepsOn(m, now, x)
    ensures CanRun(m, now, d[|d| - 1]) ==> Turn(m, now, d) == d
    ensures Turn(n, now, d) == Turn(m, now, d) && forall r | r in Turn(m, now, d) :: r in d
  {
    var x := d[|d| - 1];
    assert x in d && Alike(n, m, x);
  }

  lemma WalkIn(m: map<Ref, Process>, now: Time, c: seq<Ref>, k: int, d: seq<Ref>)
    requires Walk(m, now, c, k, d)
    ensures forall r | r in d :: r in c
  {
    SurvivorsIn(m, now, c, k);
    assert forall r | r in c[..k] || r in c[k + 1..] :: r in c;
  }

  lemma TickEnd(m: map<Ref, Process>, now: Time, c: seq<Ref>, k: int, n: map<Ref, Process>, d: seq<Ref>, woken: bool)
    requires Walk(m, now, c, k, d) && StateOf(n, d[|d| - 1]) == Running && forall r | r in c :: r in m
    requires if woken then Woken(m, now, c, k, n, d) else AllAlike(m, n, d)
    ensures FirstReady(m, now, c, k) && d == Ticked(m, now, c, k) && d[|d| - 1] == c[k]
    ensures forall r | r in d && r != c[k] :: Alike(n, m, r)
  {
    WalkEnds(m, now, c, k, d);
    if !woken {
      assert Alike(n, m, c[k]);
    }
  }

  // ---------- no way out ----------

  function Turns(m: map<Ref, Process>, now: Time, d: seq<Ref>, t: nat): seq<Ref> {
    if t == 0 then d else Turn(m, now, Turns(m, now, d, t - 1))
  }

  ghost predicate Idle(m: map<Ref, Process>, now: Time, d: seq<Ref>) {
    forall r | r in d :: r in m && !CanRun(m, now, r)
  }

  lemma TurnIdle(m: map<Ref, Process>, now: Time, d: seq<Ref>)
    requires Idle(m, now, d)
    ensures Idle(m, now, Turn(m, now, d))
  {
  }

  /** When no member is ready, the loop does not come to a process that can run, however often it turns. */
  lemma {:induction false} NeverPicks(m: map<Ref, Process>, now: Time, c: seq<Ref>, t: nat)
    requires c != [] && (forall r | r in c :: r in m) && !SomeReady(m, now, c)
    ensures var d := Turns(m, now, Rotated(c), t); d == [] || !CanRun(m, now, d[|d| - 1])
  {
    var k := StaysIdle(m, now, c, t);
    var d := Turns(m, now, Rotated(c), t);
    if !Idle(m, now, d) {
      WalkEnds(m, now, c, k, d);
    }
  }

  lemma {:induction false} StaysIdle(m: map<Ref, Process>, now: Time, c: seq<Ref>, t: nat) returns (k: int)
    requires c != [] && (forall r | r in c :: r in m) && !SomeReady(m, now, c)
    ensures var d := Turns(m, now, Rotated(c), t); Idle(m, now, d) || Walk(m, now, c, k, d)
  {
    if t == 0 {
      k := 0;
      WalkStart(m, now, c);
    } else {
      k := StaysIdle(m, now, c, t - 1);
      var d := Turns(m, now, Rotated(c), t - 1);
      if Idle(m, now, d) {
        TurnIdle(m, now, d);
      } else {
        WalkEnds(m, now, c, k, d);
        WalkNext(m, now, c, k, d);
        var k' := if SleepsOn(m, now, c[k]) then k + 2 else k + 1;
        if k' >= |c| { LastTurn(m, now, c, k, d); }
        k := k';
      }
    }
  }

  /** Once round the ring, those left are idle. */
  lemma LastTurn(m: map<Ref, Process>, now: Time, c: seq<Ref>, k: nat, d: seq<Ref>)
    requires Walk(m, now, c, k, d) && !CanRun(m, now, c[k]) && (forall r | r in c :: r in m)
    requires (if SleepsOn(m, now, c[k]) then k + 2 else k + 1) >= |c|
    ensures Idle(m, now, Turn(m, now, d))
  {
    SurvivorsIdle(m, now, c, k);
    if k + 1 < |c| {
      assert c[k + 1..] == [c[k + 1]];
      assert d[1..] == Survivors(m, now, c, k) + [c[k]];
    } else {
      assert c[k + 1..] == [];
      TurnIdle(m, now, d);
    }
    assert d[|d| - 1] == c[k] && c[k] in c;
    hide Survivors;
  }

  lemma {:induction false} SurvivorsIdle(m: map<Ref, Process>, now: Time, c: seq<Ref>, k: nat)
    requires k <= |c| && (forall i | 0 <= i < k :: !Ready(m, now, c, i)) && forall r | r in c :: r in m
    ensures Idle(m, now, Survivors(m, now, c, k))
  {
    if k > 0 {
      SurvivorsIdle(m, now, c, k - 1);
      assert !Ready(m, now, c, k - 1) && c[k - 1] in c;
    }
  }

  /** Where the current process is after a move to the next one. */
  lemma Leaving(m: map<Ref, Process>, c: seq<Ref>, first: Ref, current: Ref, freePid: nat, newRef: Ref, count: nat)
    requires Sound(m, c, first, current, freePid, newRef, count) && current != 0 && |c| > 1
    ensures current == c[|c| - 1] && current in m && IdOf(m, c[0]) != IdOf(m, current)
    ensures var d := Rotated(c); |d| == |c| && d[|c| - 2] == current && Without(d, |c| - 2) == Rotated(c[..|c| - 1])
  {
    Positive(m, c);
    Apart(c, 0, |c| - 1);
    assert c[0] in c;
    hide Linked;
  }

  lemma RotateParts(x: seq<Ref>, a: seq<Ref>, y: Ref)
    requires x != []
    ensures var d := x + a + [y]; d[0] == x[0] && |d| > 1
    ensures var d := x + a + [y];
      Rotated(d) == x[1..] + (a + [y]) + [x[0]] && Rotated(d[..|d| - 1]) == x[1..] + a + [x[0]]
  {
    var d := x + a + [y];
    assert d[..|d| - 1] == x + a;
  }

  lemma SkipParts(x: seq<Ref>, a: seq<Ref>, y: Ref)
    requires |x| > 1
    ensures Rotated((x + a + [y])[1..]) == x[1..][1..] + (a + [y]) + [x[1]]
  {
    assert (x + a + [y])[1..] == x[1..] + a + [y];
  }

  class Scheduler {
    var processes: map<Ref, Process>
    var first: Ref
    var current: Ref
    var freePid: nat
    var count: nat
    var time: Time
    var newRef: Ref  // what the kernel heap hands out next
    ghost var ring: seq<Ref>

    ghost predicate Valid()
      reads this
    {
      Sound(processes, ring, first, current, freePid, newRef, count)
    }

    constructor ()
      ensures Valid() && ring == [] && time == Time(0, 0)
    {
      processes, first, current, freePid, count, newRef := map[], 0, 0, 0, 0, 1;
      time := Time(0, 0);
      ring := [];
    }

    /** A new process goes before the first one, that is, behind all others. */
    method CreateProcess(state: State, wake: Time) returns (r: Ref)
      requires Valid()
      modifies this
      ensures Valid() && r !in old(processes) && r in processes && processes[r].state == state &&
        processes[r].id == old(freePid)
      ensures old(ring) == [] ==> ring == [r] && first == r
      ensures old(ring) != [] ==> first == old(first) && PutBefore(old(ring), ring, first, r)
      ensures Keeps(old(processes), processes)
    {
      hide Linked, PutBefore, Keeps, UniqueIds;
      SoundIn(processes, ring, first, current, freePid, newRef, count);
      r := newRef;
      if first == 0 {
        OnlyOne(r, freePid, state, wake);
        KeepsAll(processes, r, Process(freePid, state, wake, r, r));
        first := r;
        processes := processes[r := Process(freePid, state, wake, r, r)];
        ring := [r];
      } else {
        CreateNext(state, wake);
      }
      newRef, freePid, count := newRef + 1, freePid + 1, count + 1;
    }

    method CreateNext(state: State, wake: Time)
      requires Valid() && ring != [] && first > 0
      modifies this`processes, this`ring
      ensures Sound(processes, ring, first, current, freePid + 1, newRef + 1, count + 1)
      ensures newRef !in old(processes) && newRef in processes && processes[newRef].state == state &&
        processes[newRef].id == freePid
      ensures PutBefore(old(ring), ring, first, newRef)
      ensures Keeps(old(processes), processes)
    {
      hide Sound;
      ghost var f := FirstOf(processes, ring, first, current, freePid, newRef, count);
      var p := Process(freePid, state, wake, first, processes[first].prev);
      SoundCreate(processes, ring, first, current, freePid, newRef, f, p);
      hide Sound, Inserted, PutBefore, PutAt, Keeps;
      AddEntry(newRef, p);
      ring := PutAt(ring, f, newRef);
    }

    method AddEntry(r: Ref, p: Process)
      requires p.prev in processes && p.next in processes && r !in processes
      modifies this`processes
      ensures processes == Inserted(old(processes), r, p)
    {
      processes := processes[r := p];
      processes := processes[p.next := processes[p.next].(prev := r)];
      processes := processes[p.prev := processes[p.prev].(next := r)];
    }

    /** Looks for a process, starting with the first one. */
    method Search(id: nat) returns (found: bool, entry: Ref, ghost k: nat)
      requires Valid() && ring != []
      ensures found ==> k < |ring| && entry == ring[k] && entry in processes && IdOf(processes, entry) == id
      ensures !found ==> forall r | r in ring :: IdOf(processes, r) != id
    {
      hide Sound, Linked, From, Distinct;
      ghost var f := SearchStart(processes, ring, first, current, freePid, newRef, count);
      ghost var c, i := From(ring, f), 0;
      entry := first;
      k := FromAt(ring, f, 0);
      while processes[entry].id != id
        invariant i < |c| && entry == c[i] && entry in processes && processes[entry].next == NextInRing(c, i)
        invariant forall j | 0 <= j < i :: IdOf(processes, c[j]) != id
        decreases |c| - i
      {
        entry := processes[entry].next;
        if entry == first {
          Came(c, i);
          Reread(ring, f);
          return false, entry, 0;
        }
        i := i + 1;
        MemberOf(processes, c, i);
      }
      k := FromAt(ring, f, i);
      found := true;
    }

    /** Takes a process out; it must not be the current one. */
    method RemoveProcess(id: nat) returns (ghost k: int)
      requires Valid() && ring != [] && (current != 0 ==> IdOf(processes, current) != id) &&
        (current == 0 ==> |ring| > 1)
      modifies this`processes, this`first, this`count, this`ring
      ensures Valid() && ring != []
      ensures forall r :: r in ring <==> r in old(ring) && IdOf(old(processes), r) != id
      ensures forall r | r in ring :: Alike(processes, old(processes), r)
      ensures k < 0 ==> ring == old(ring) && forall r | r in old(ring) :: IdOf(old(processes), r) != id
      ensures k >= 0 ==> k < |old(ring)| && IdOf(old(processes), old(ring)[k]) == id && ring == Without(old(ring), k)
    {
      var found, entry: Ref;
      found, entry, k := Search(id);
      if !found {
        k := -1;
      } else {
        Positive(processes, ring);
        assert forall r | r in ring && IdOf(processes, r) == id :: r == entry;
        assert current == entry ==> current != 0;
        DropMember(entry, k);
      }
    }

    method DropMember(entry: Ref, ghost k: nat)
      requires Valid() && k < |ring| && |ring| > 1 && ring[k] == entry && current != entry
      modifies this`processes, this`first, this`count, this`ring
      ensures Valid() && ring == Without(old(ring), k)
      ensures forall r :: r in ring <==> r in old(ring) && r != entry
      ensures forall r | r in ring :: Alike(processes, old(processes), r)
      ensures forall j | 0 <= j < |old(ring)| && old(ring)[j] == entry :: j == k
    {
      hide Sound, Linked, UniqueIds, Unlinked, Without, Alike;
      SizeOf(processes, ring, first, current, freePid, newRef, count);
      SoundRemove(processes, ring, first, current, freePid, newRef, k);
      var next := processes[entry].next;
      DropEntry(entry);
      if entry == first {
        first := next;
      }
      count := count - 1;
      ring := Without(ring, k);
    }

    method DropEntry(entry: Ref)
      requires entry in processes && processes[entry].prev in processes && processes[entry].next in processes
      modifies this`processes
      ensures processes == Unlinked(old(processes), entry)
    {
      var prev, next := processes[entry].prev, processes[entry].next;
      processes := processes[prev := processes[prev].(next := next)];
      processes := processes[next := processes[next].(prev := prev)];
      processes := processes - {entry};
    }

    /** Makes a process the current one. */
    method SetCurrentProcess(id: nat) returns (found: bool)
      requires Valid() && ring != []
      modifies this`current, this`ring
      ensures Valid() && found == exists r :: r in ring && IdOf(processes, r) == id
      ensures found ==> current in ring && IdOf(processes, current) == id
      ensures !found ==> ring == old(ring) && current == old(current)
      ensures found ==> exists j :: 0 <= j < |old(ring)| && ring == From(old(ring), j)
    {
      var entry: Ref;
      ghost var k;
      found, entry, k := Search(id);
      if found {
        SoundReread(processes, ring, first, current, freePid, newRef, count, k);
        current := entry;
        ring := From(ring, if k + 1 < |ring| then k + 1 else 0);
      }
    }

    method GetNextProcess() returns (r: Ref)
      requires Valid() && current != 0
      modifies this`current, this`ring
      ensures Valid() && ring == Rotated(old(ring)) && r == current == old(ring)[0]
      ensures current in ring && current in processes && current != 0
    {
      Positive(processes, ring);
      MemberOf(processes, ring, |ring| - 1);
      MemberOf(processes, ring, 0);
      RotateLinked(processes, ring);
      hide Linked, UniqueIds;
      current := processes[current].next;
      r := current;
      ring := Rotated(ring);
    }

    /** Takes a candidate that is not running out of the way: one turn of the loop of the interrupt.
        A sleeping process that is not due falls through: the one behind it is removed. */
    method PassOver() returns (next: Ref)
      requires Valid() && current != 0 && StateOf(processes, current) != Running
      requires StateOf(processes, current) != Suspended && !CanRun(processes, time, current) ==> |ring| > 1
      modifies this
      ensures Valid() && current != 0 && next == current && next in processes && time == old(time)
      ensures ring == Turn(old(processes), time, old(ring)) && ring != []
      ensures forall r | r in ring && !(r == current && old(CanRun(processes, time, current))) ::
        Alike(processes, old(processes), r)
      ensures old(CanRun(processes, time, current)) ==>
        current == old(current) && StateOf(processes, current) == Running
    {
      hide Sound, Rotated, Linked, UniqueIds;
      SoundIn(processes, ring, first, current, freePid, newRef, count);
      RotatedFront(ring);
      next := current;
      if processes[next].state == Sleeping {
        if Due(time, processes[next].wake) {
          Wake(next);
          return;
        }
        next := GetNextProcess();
        next := DropCurrent();
      } else if processes[next].state == Terminated {
        next := DropCurrent();
      } else {
        next := GetNextProcess();
      }
    }

    method Wake(r: Ref)
      requires Valid() && r in processes
      modifies this`processes
      ensures Valid() && StateOf(processes, r) == Running && forall x | x != r :: Alike(processes, old(processes), x)
    {
      WakeSound(processes, ring, r);
      hide Linked, UniqueIds;
      processes := processes[r := processes[r].(state := Running)];
    }

    /** Moves on and removes the process left behind, whatever its state. */
    method DropCurrent() returns (next: Ref)
      requires Valid() && current != 0 && |ring| > 1
      modifies this
      ensures Valid() && current != 0 && next == current && next in processes &&
        ring == Rotated(old(ring)[..|old(ring)| - 1]) && time == old(time)
      ensures forall r | r in ring :: Alike(processes, old(processes), r)
    {
      hide Sound, Rotated, Without;
      Leaving(processes, ring, first, current, freePid, newRef, count);
      var id := processes[current].id;
      next := GetNextProcess();
      RemoveBehind(id);
    }

    /** Removes the process just before the current one. */
    method RemoveBehind(id: nat)
      requires Valid() && current != 0 && |ring| > 1 && IdOf(processes, ring[|ring| - 2]) == id &&
        IdOf(processes, current) != id
      modifies this`processes, this`first, this`count, this`ring
      ensures Valid() && ring == Without(old(ring), |old(ring)| - 2) && current in processes
      ensures forall r | r in ring :: Alike(processes, old(processes), r)
    {
      hide Sound, Without;
      ghost var m, c, f, n := processes, ring, first, count;
      assert c[|c| - 2] in c;
      ghost var k := RemoveProcess(id);
      SameId(m, c, f, current, freePid, newRef, n, k, |c| - 2);
      SoundIn(processes, ring, first, current, freePid, newRef, count);
    }

    /** The timer interrupt. It comes to a process if and only if one is ready, see `NeverPicks`. */
    method Tick() returns (next: Ref, ghost k: nat)
      requires Valid() && current != 0 && SomeReady(processes, Advance(time), ring)
      modifies this
      ensures Valid() && time == Advance(old(time)) && FirstReady(old(processes), time, old(ring), k)
      ensures next == current == old(ring)[k] && ring == Ticked(old(processes), time, old(ring), k)
      ensures StateOf(processes, current) == Running
      ensures forall r | r in ring && r != current :: Alike(processes, old(processes), r)
    {
      hide Sound, Linked, UniqueIds, Rotated, Walk, FirstReady, Ticked, CanRun, SomeReady, AllAlike, Alike, Woken;
      ghost var m, c := processes, ring;
      MoveClock();
      SoundIn(processes, ring, first, current, freePid, newRef, count);
      TickStart(m, time, c, first, current, freePid, newRef, count);
      next, k := GoOn(m, c);
    }

    method MoveClock()
      modifies this`time
      ensures time == Advance(old(time))
    {
      time := time.(millisecond := time.millisecond + 10);
      if time.millisecond > 1000 {
        time := Time(time.seconds + 1, time.millisecond - 1000);
      }
    }

    /** The loop of the interrupt. */
    method GoOn(ghost m: map<Ref, Process>, ghost c: seq<Ref>) returns (next: Ref, ghost k: nat)
      requires Valid() && current != 0 && SomeReady(m, time, ring) && m == processes && c == ring
      requires c != [] && Walk(m, time, c, 0, Rotated(c)) && AllAlike(m, m, Rotated(c)) && forall r | r in c :: r in m
      requires Rotated(c)[|c| - 1] == c[0]
      modifies this
      ensures Valid() && time == old(time) && FirstReady(m, time, c, k) && k < |c|
      ensures next == current == c[k] && ring == Ticked(m, time, c, k) && StateOf(processes, current) == Running
      ensures forall r | r in ring && r != current :: Alike(processes, m, r)
    {
      hide Sound, Linked, UniqueIds, Rotated, Walk, FirstReady, Ticked, CanRun, SomeReady, AllAlike, Alike, Woken;
      next := GetNextProcess();
      k := 0;
      ghost var woken := false;
      while processes[next].state != Running
        invariant Valid() && Walk(m, time, c, k, ring) && next == current && next in processes && current != 0
        invariant time == old(time) && k < |c|
        invariant ring != [] && current == ring[|ring| - 1] && (woken ==> StateOf(processes, current) == Running)
        invariant if woken then Woken(m, time, c, k, processes, ring) else AllAlike(m, processes, ring)
        decreases |c| - k, if woken then 0 else 1
      {
        next, k, woken := PassOneOver(m, c, k);
      }
      TickEnd(m, time, c, k, processes, ring, woken);
    }

    method PassOneOver(ghost m: map<Ref, Process>, ghost c: seq<Ref>, ghost k: nat)
      returns (next: Ref, ghost k': nat, ghost woken: bool)
      requires Valid() && Walk(m, time, c, k, ring) && current != 0 && StateOf(processes, current) != Running
      requires SomeReady(m, time, c) && AllAlike(m, processes, ring) && forall r | r in c :: r in m
      modifies this
      ensures Valid() && Walk(m, time, c, k', ring) && next == current && next in processes && current != 0
      ensures time == old(time) && k' < |c|
      ensures ring != [] && current == ring[|ring| - 1] && (woken ==> StateOf(processes, current) == Running)
      ensures if woken then k' == k && Woken(m, time, c, k, processes, ring) else k' > k && AllAlike(m, processes, ring)
    {
      hide Rotated, Linked, UniqueIds, Turn;
      ghost var n, d := processes, ring;
      WalkEnds(m, time, c, k, d);
      WalkIn(m, time, c, k, d);
      TurnSame(m, n, time, d);
      woken := CanRun(m, time, c[k]);
      if !woken { WalkNext(m, time, c, k, d); }
      hide Sound, Walk, SomeReady, Survivors, Killed, CanRun, Ticked;
      next := PassOver();
      k' := if woken then k else if SleepsOn(m, time, c[k]) then k + 2 else k + 1;
    }
  }

  function Advance(t: Time): Time {
    if t.millisecond + 10 > 1000 then Time(t.seconds + 1, t.millisecond + 10 - 1000)
      else t.(millisecond := t.millisecond + 10)
  }

  /** A tick is ten milliseconds, and the clock stays between 0 and 1000. */
  lemma ClockAdvances(t: Time)
    requires t.millisecond <= 1000
    ensures var u := Advance(t);
      u.millisecond <= 1000 && 1000 * u.seconds + u.millisecond == 1000 * t.seconds + t.millisecond + 10 &&
        (t.millisecond % 10 == 0 ==> u.millisecond % 10 == 0)
  {
  }

  function Later(t: Time, n: nat): Time { if n == 0 then t else Advance(Later(t, n - 1)) }

  lemma {:induction false} LaterIs(t: Time, n: nat)
    requires t.millisecond + 10 * n <= 1000
    ensures Later(t, n) == t.(millisecond := t.millisecond + 10 * n)
  {
    if n > 0 { LaterIs(t, n - 1); }
  }

  /** A time that has passed is seen at one of the next hundred ticks, that is within a second. */
  lemma DueInTime(t: Time, wake: Time) returns (n: nat)
    requires t.millisecond % 10 == 0 && t.millisecond <= 1000 && wake.millisecond <= 1000 && Passed(t, wake)
    ensures n <= 100 && Due(Later(t, n), wake)
  {
    if t.seconds < wake.seconds {
      n := 1;
      assert Later(t, 1) == Advance(Later(t, 0));
    } else if t.millisecond >= wake.millisecond {
      n := 0;
    } else {
      n := (wake.millisecond - t.millisecond + 9) / 10;
      LaterIs(t, n);
    }
  }

  // ---------- fairness ----------

  /** A process that is looked at is picked, or comes closer to the front. */
  lemma Closer(m: map<Ref, Process>, now: Time, c: seq<Ref>, k: nat, p: nat)
    requires FirstReady(m, now, c, k) && p < |c| && Ready(m, now, c, p)
    ensures k <= p
    ensures k < p ==> p - k - 1 < |Ticked(m, now, c, k)| && Ticked(m, now, c, k)[p - k - 1] == c[p]
  {
  }

  /** One tick, with the processes as it finds them and the clock as it leaves it. */
  datatype TickOf = TickOf(m: map<Ref, Process>, now: Time, ring: seq<Ref>, k: nat)

  /** Ticks without new processes in between; what runs in between may change states. */
  ghost predicate Ticks(ts: seq<TickOf>) {
    && (forall j | 0 <= j < |ts| :: FirstReady(ts[j].m, ts[j].now, ts[j].ring, ts[j].k))
    && forall j | 0 < j < |ts| :: ts[j].ring == Ticked(ts[j - 1].m, ts[j - 1].now, ts[j - 1].ring, ts[j - 1].k)
  }

  ghost predicate Picks(t: TickOf, r: Ref) { t.k < |t.ring| && t.ring[t.k] == r }

  /** It can run, and is not behind a process that sleeps on and is not removed itself. */
  ghost predicate StaysReady(t: TickOf, r: Ref) {
    forall i | 0 <= i < |t.ring| && t.ring[i] == r :: Ready(t.m, t.now, t.ring, i)
  }

  /** A process that stays ready is picked within as many ticks as the ring has members. */
  lemma Fair(ts: seq<TickOf>, r: Ref)
    requires Ticks(ts) && ts != [] && r in ts[0].ring && |ts| >= |ts[0].ring|
    requires forall j | 0 <= j < |ts| :: StaysReady(ts[j], r)
    ensures exists j :: 0 <= j < |ts[0].ring| && Picks(ts[j], r)
  {
    var p :| 0 <= p < |ts[0].ring| && ts[0].ring[p] == r;
    FairFrom(ts, r, 0, p);
  }

  lemma {:induction false} FairFrom(ts: seq<TickOf>, r: Ref, j: nat, p: nat)
    requires Ticks(ts) && j + p < |ts| && p < |ts[j].ring| && ts[j].ring[p] == r
    requires forall j | 0 <= j < |ts| :: StaysReady(ts[j], r)
    ensures exists i :: j <= i <= j + p && Picks(ts[i], r)
    decreases p
  {
    hide Ticked, Ready;
    var k := ts[j].k;
    Closer(ts[j].m, ts[j].now, ts[j].ring, k, p);
    if k == p {
      assert Picks(ts[j], r);
    } else {
      var i := j + 1;
      assert ts[i].ring == Ticked(ts[i - 1].m, ts[i - 1].now, ts[i - 1].ring, ts[i - 1].k);
      FairFrom(ts, r, i, p - k - 1);
    }
  }

  /** With no process asleep, staying ready is staying running. */
  lemma AwakeReady(t: TickOf, r: Ref)
    requires StateOf(t.m, r) == Running && forall x | x in t.ring :: StateOf(t.m, x) != Sleeping
    ensures StaysReady(t, r)
  {
    forall i | 0 <= i < |t.ring| && t.ring[i] == r ensures Ready(t.m, t.now, t.ring, i) {
      NoneKilled(t.m, t.now, t.ring, i);
    }
  }
}
