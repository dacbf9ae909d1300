/**
 Key rotation in spine-code/controller.py: a controller overwrites one of three
 key slots per round and pushes the key list to every border router, one table
 entry at a time, while packets are encrypted at one router and decrypted at
 another.  The steps of a run may come in any order that the controller's loop
 allows; random keys are inputs.
 */
module KeyRotation {
  /** Twelve keys, four per slot, and the version in place 12. */
  type KeyList = seq<nat>

  type Quad = seq<nat>

  /** What the border router's encrypt and decrypt actions pick by version. */
  function Picked(keys: KeyList, version: nat): Quad
    requires |keys| == 13
  {
    if version == 0 then keys[0..4] else if version == 1 then keys[4..8] else keys[8..12]
  }

  /** One round of the controller's loop on its key list. */
  function Rotated(keys: KeyList, i: nat, quad: Quad): (r: KeyList)
    requires |keys| == 13 && |quad| == 4
    ensures |r| == 13
  {
    var at := 4 * ((i + 1) % 3);
    keys[12 := i % 3][at := quad[0]][at + 1 := quad[1]][at + 2 := quad[2]][at + 3 := quad[3]]
  }

  datatype Packet = Packet(version: nat, quad: Quad, round: nat)

  /**
   The controller's round and its position in the list of entries to write in
   that round; the entries of every router; packets under way; and, as history,
   the key list of every round so far and the round each entry comes from.
   */
  datatype State = State(
    round: nat, pc: nat, keys: KeyList,
    enc: seq<KeyList>, dec: seq<KeyList>, packets: seq<Packet>,
    past: seq<KeyList>, encRound: seq<nat>, decRound: seq<nat>)

  datatype Action =
    | Rotate(keys: Quad)      // the next turn of the loop begins
    | WriteEntry              // ModifyTableEntry on the next entry
    | Encrypt(router: nat)    // a packet enters at a router

  /** All entries installed from the first key list, whose version is 0. */
  function Start(n: nat, keys: KeyList): State {
    State(0, 2 * n, keys, seq(n, _ => keys), seq(n, _ => keys), [],
          [keys], seq(n, _ => 0), seq(n, _ => 0))
  }

  function Act(n: nat, s: State, a: Action): State {
    match a
    case Rotate(quad) =>
      if s.pc == 2 * n && |s.keys| == 13 && |quad| == 4 then
        var keys := Rotated(s.keys, s.round + 1, quad);
        s.(round := s.round + 1, pc := 0, keys := keys, past := s.past + [keys])
      else s
    case WriteEntry =>
      var j := s.pc / 2;
      if s.pc >= 2 * n || j >= |s.enc| || j >= |s.dec| || j >= |s.encRound| || j >= |s.decRound| then s
      else if s.pc % 2 == 0 then
        s.(enc := s.enc[j := s.keys], encRound := s.encRound[j := s.round], pc := s.pc + 1)
      else
        s.(dec := s.dec[j := s.keys], decRound := s.decRound[j := s.round], pc := s.pc + 1)
    case Encrypt(j) =>
      if j < |s.enc| && j < |s.encRound| && |s.enc[j]| == 13 then
        var v := s.enc[j][12];
        s.(packets := s.packets + [Packet(v, Picked(s.enc[j], v), s.encRound[j])])
      else s
  }

  function Exec(n: nat, s: State, run: seq<Action>): State {
    if run == [] then s else Act(n, Exec(n, s, run[..|run| - 1]), run[|run| - 1])
  }

  // ---- the key lists of successive rounds ----

  /** From round r to the next, only slot (r + 2) mod 3 is replaced. */
  ghost predicate Follows(past: seq<KeyList>, r: nat)
    requires r + 1 < |past| && |past[r]| == |past[r + 1]| == 13
  {
    forall v :: 0 <= v < 3 && v != (r + 2) % 3 ==> Picked(past[r + 1], v) == Picked(past[r], v)
  }

  /** Round r has version r mod 3, and each round follows from the one before. */
  ghost predicate Chain(past: seq<KeyList>) {
    && |past| > 0
    && (forall r :: 0 <= r < |past| ==> |past[r]| == 13 && past[r][12] == r % 3)
    && (forall r :: 0 <= r < |past| - 1 ==> Follows(past, r))
  }

  lemma RotatedPicks(keys: KeyList, i: nat, quad: Quad, v: nat)
    requires |keys| == 13 && |quad| == 4 && v < 3
    ensures Rotated(keys, i, quad)[12] == i % 3
    ensures Picked(Rotated(keys, i, quad), v) == if v == (i + 1) % 3 then quad else Picked(keys, v)
  {
    var got := Picked(Rotated(keys, i, quad), v);
    var want := if v == (i + 1) % 3 then quad else Picked(keys, v);
    assert got[0] == want[0] && got[1] == want[1] && got[2] == want[2] && got[3] == want[3];
  }

  lemma ChainGrows(past: seq<KeyList>, quad: Quad)
    requires Chain(past) && |quad| == 4
    ensures Chain(past + [Rotated(past[|past| - 1], |past|, quad)])
  {
    var next := past + [Rotated(past[|past| - 1], |past|, quad)];
    RotatedPicks(past[|past| - 1], |past|, quad, 0);
    forall r | 0 <= r < |next| - 1
      ensures Follows(next, r)
    {
      if r == |past| - 1 {
        forall v | 0 <= v < 3 && v != (r + 2) % 3
          ensures Picked(next[r + 1], v) == Picked(next[r], v)
        {
          RotatedPicks(past[r], |past|, quad, v);
        }
      } else {
        assert Follows(past, r);
        assert next[r] == past[r] && next[r + 1] == past[r + 1];
      }
    }
  }

  /** The slot a round encrypts with holds the same keys in the round before and the round after. */
  lemma SlotStable(past: seq<KeyList>, r: nat, q: nat)
    requires Chain(past) && r < |past| && q < |past| && r - 1 <= q <= r + 1
    ensures Picked(past[q], r % 3) == Picked(past[r], r % 3)
  {
    if q == r + 1 {
      assert Follows(past, r);
    } else if q == r - 1 {
      assert Follows(past, q);
    }
  }

  // ---- what every run keeps ----

  /** Which round the j-th encrypt and decrypt entries are from, given the position in the round. */
  function RoundOf(s: State, place: nat): int {
    if place < s.pc then s.round else s.round - 1
  }

  ghost predicate Inv(n: nat, s: State) {
    && Chain(s.past) && |s.past| == s.round + 1 && s.keys == s.past[s.round]
    && |s.enc| == |s.dec| == |s.encRound| == |s.decRound| == n && s.pc <= 2 * n
    && (s.round == 0 ==> s.pc == 2 * n)
    && (forall j :: 0 <= j < n ==> s.encRound[j] == RoundOf(s, 2 * j) && s.enc[j] == s.past[s.encRound[j]])
    && (forall j :: 0 <= j < n ==> s.decRound[j] == RoundOf(s, 2 * j + 1) && s.dec[j] == s.past[s.decRound[j]])
  }

  /** A packet was encrypted with its round's own slot, and no decrypt entry is further back than one round. */
  ghost predicate PacketsOk(s: State) {
    forall m :: 0 <= m < |s.packets| ==>
      var p := s.packets[m];
      && p.round < |s.past| && |s.past[p.round]| == 13
      && p.version == p.round % 3 && p.quad == Picked(s.past[p.round], p.version)
      && forall k :: 0 <= k < |s.decRound| ==> p.round <= s.decRound[k] + 1
  }

  lemma ActKeeps(n: nat, s: State, a: Action)
    requires Inv(n, s)
    ensures Inv(n, Act(n, s, a))
  {
    match a
    case Rotate(quad) => RotateKeeps(n, s, quad);
    case WriteEntry => WriteKeeps(n, s);
    case Encrypt(j) =>
  }

  lemma RotateKeeps(n: nat, s: State, quad: Quad)
    requires Inv(n, s)
    ensures Inv(n, Act(n, s, Rotate(quad)))
  {
    if |quad| == 4 {
      ChainGrows(s.past, quad);
    }
  }

  lemma WriteKeeps(n: nat, s: State)
    requires Inv(n, s)
    ensures Inv(n, Act(n, s, WriteEntry))
  {
  }

  lemma ActKeepsPackets(n: nat, s: State, a: Action)
    requires Inv(n, s) && PacketsOk(s)
    ensures PacketsOk(Act(n, s, a))
  {
    var t := Act(n, s, a);
    ActKeeps(n, s, a);
    forall m | 0 <= m < |t.packets|
      ensures t.packets[m].round < |t.past| && t.packets[m].version == t.packets[m].round % 3
      ensures t.packets[m].quad == Picked(t.past[t.packets[m].round], t.packets[m].version)
      ensures forall k :: 0 <= k < |t.decRound| ==> t.packets[m].round <= t.decRound[k] + 1
    {
      if m < |s.packets| {
        assert t.packets[m] == s.packets[m];
      }
    }
  }

  ghost predicate Begins(n: nat, keys: KeyList) {
    |keys| == 13 && keys[12] == 0
  }

  lemma {:induction false} RunKeeps(n: nat, keys: KeyList, run: seq<Action>)
    requires Begins(n, keys)
    ensures Inv(n, Exec(n, Start(n, keys), run)) && PacketsOk(Exec(n, Start(n, keys), run))
    decreases |run|
  {
    if run != [] {
      RunKeeps(n, keys, run[..|run| - 1]);
      var s := Exec(n, Start(n, keys), run[..|run| - 1]);
      ActKeeps(n, s, run[|run| - 1]);
      ActKeepsPackets(n, s, run[|run| - 1]);
    }
  }

  // ---- the theorems ----

  /** In every run, no router's decrypt entry is more than one round behind any encrypt entry. */
  lemma EntriesStayClose(n: nat, keys: KeyList, run: seq<Action>, j: nat, k: nat)
    requires Begins(n, keys) && j < n && k < n
    ensures
      var s := Exec(n, Start(n, keys), run);
      |s.encRound| == |s.decRound| == n && s.encRound[j] <= s.decRound[k] + 1 && s.decRound[k] <= s.encRound[j] + 1
  {
    RunKeeps(n, keys, run);
  }

  /**
   In every run, a packet encrypted from a round-r entry finds its four keys at
   any router whose decrypt entry has not reached round r + 2; it never meets
   an entry older than round r - 1.
   */
  lemma PacketDecrypts(n: nat, keys: KeyList, run: seq<Action>, m: nat, k: nat)
    requires Begins(n, keys) && k < n
    requires m < |Exec(n, Start(n, keys), run).packets|
    ensures
      var s := Exec(n, Start(n, keys), run);
      var p := s.packets[m];
      && k < |s.decRound| && k < |s.dec| && |s.dec[k]| == 13
      && p.round <= s.decRound[k] + 1
      && (s.decRound[k] < p.round + 2 ==> Picked(s.dec[k], p.version) == p.quad)
  {
    RunKeeps(n, keys, run);
    var s := Exec(n, Start(n, keys), run);
    var p := s.packets[m];
    if s.decRound[k] < p.round + 2 {
      SlotStable(s.past, p.round, s.decRound[k]);
    }
  }

  // ---- with keys that never repeat, the window is exact ----

  /** The first key of a new quad occurs in no earlier key list. */
  ghost predicate Novel(past: seq<KeyList>, quad: Quad) {
    |quad| == 4 ==> forall r :: 0 <= r < |past| ==> quad[0] !in past[r]
  }

  ghost predicate NovelRun(n: nat, s: State, run: seq<Action>) {
    forall i :: 0 <= i < |run| && run[i].Rotate? ==> Novel(Exec(n, s, run[..i]).past, run[i].keys)
  }

  lemma NovelPrefix(n: nat, s: State, run: seq<Action>)
    requires NovelRun(n, s, run) && run != []
    ensures NovelRun(n, s, run[..|run| - 1])
  {
    var run0 := run[..|run| - 1];
    assert forall i :: 0 <= i < |run0| ==> run0[..i] == run[..i] && run0[i] == run[i];
  }

  /** The first key of a slot's quad at round q, once replaced since round r, is not among round r's keys. */
  ghost predicate Replaced(past: seq<KeyList>) {
    forall r, q :: 0 <= r && r + 2 <= q < |past| ==>
      |past[q]| == 13 && |past[r]| == 13 && Picked(past[q], r % 3)[0] !in past[r]
  }

  lemma ReplacedGrows(past: seq<KeyList>, quad: Quad)
    requires Chain(past) && Replaced(past) && |quad| == 4 && Novel(past, quad)
    ensures Replaced(past + [Rotated(past[|past| - 1], |past|, quad)])
  {
    var next := past + [Rotated(past[|past| - 1], |past|, quad)];
    ChainGrows(past, quad);
    forall r, q | 0 <= r && r + 2 <= q < |next|
      ensures |next[q]| == 13 && |next[r]| == 13 && Picked(next[q], r % 3)[0] !in next[r]
    {
      assert next[r] == past[r];
      if q == |past| {
        NewestReplaces(past, quad, r);
      } else {
        assert next[q] == past[q];
      }
    }
  }

  lemma NewestReplaces(past: seq<KeyList>, quad: Quad, r: nat)
    requires Chain(past) && Replaced(past) && |quad| == 4 && Novel(past, quad) && r + 2 <= |past|
    ensures Picked(Rotated(past[|past| - 1], |past|, quad), r % 3)[0] !in past[r]
  {
    var last := |past|;
    RotatedPicks(past[last - 1], last, quad, r % 3);
    if r % 3 == (last + 1) % 3 {
      assert quad[0] !in past[r];
    } else {
      assert r + 2 <= last - 1;
    }
  }

  lemma ActReplaces(n: nat, s: State, a: Action)
    requires Chain(s.past) && s.keys == s.past[|s.past| - 1] && |s.past| == s.round + 1
    requires Replaced(s.past) && (a.Rotate? ==> Novel(s.past, a.keys))
    ensures Replaced(Act(n, s, a).past)
  {
    if a.Rotate? && |a.keys| == 4 {
      ReplacedGrows(s.past, a.keys);
    }
  }

  lemma {:induction false} RunReplaces(n: nat, keys: KeyList, run: seq<Action>)
    requires Begins(n, keys) && NovelRun(n, Start(n, keys), run)
    ensures Replaced(Exec(n, Start(n, keys), run).past)
    decreases |run|
  {
    if run != [] {
      var run0, a := run[..|run| - 1], run[|run| - 1];
      NovelPrefix(n, Start(n, keys), run);
      RunReplaces(n, keys, run0);
      RunKeeps(n, keys, run0);
      ActReplaces(n, Exec(n, Start(n, keys), run0), a);
    }
  }

  /** With keys that never repeat, a packet of round r decrypts exactly while the entry is below round r + 2. */
  lemma WindowIsExact(n: nat, keys: KeyList, run: seq<Action>, m: nat, k: nat)
    requires Begins(n, keys) && k < n && NovelRun(n, Start(n, keys), run)
    requires m < |Exec(n, Start(n, keys), run).packets|
    ensures
      var s := Exec(n, Start(n, keys), run);
      var p := s.packets[m];
      && k < |s.decRound| && k < |s.dec| && |s.dec[k]| == 13
      && (Picked(s.dec[k], p.version) == p.quad <==> s.decRound[k] < p.round + 2)
  {
    PacketDecrypts(n, keys, run, m, k);
    RunReplaces(n, keys, run);
    RunKeeps(n, keys, run);
    var s := Exec(n, Start(n, keys), run);
    var p := s.packets[m];
    if s.decRound[k] >= p.round + 2 {
      assert Picked(s.dec[k], p.version)[0] !in s.past[p.round];
      assert p.quad[0] in s.past[p.round];
    }
  }

  // ---- the controller's own code ----

  class Router {
    var enc: KeyList
    var dec: KeyList
  }

  /** The body of the rotation loop that edits the key list in place. */
  method NextRound(keys: array<nat>, i: nat, quad: Quad)
    requires keys.Length == 13 && |quad| == 4
    modifies keys
    ensures keys[..] == Rotated(old(keys[..]), i, quad)
  {
    keys[12] := i % 3;
    var slotToUpdate := (i + 1) % 3;
    keys[4 * slotToUpdate] := quad[0];
    keys[4 * slotToUpdate + 1] := quad[1];
    keys[4 * slotToUpdate + 2] := quad[2];
    keys[4 * slotToUpdate + 3] := quad[3];
  }

  /** updateKeysAndVersionNumber: encrypt entry, then decrypt entry, router by router. */
  method UpdateKeysAndVersionNumber(keys: array<nat>, sws: seq<Router>)
    requires keys.Length == 13
    modifies sws
    ensures forall j :: 0 <= j < |sws| ==> sws[j].enc == keys[..] && sws[j].dec == keys[..]
  {
    for j := 0 to |sws|
      invariant forall m :: 0 <= m < j ==> sws[m].enc == keys[..] && sws[m].dec == keys[..]
    {
      sws[j].enc := keys[..];
      sws[j].dec := keys[..];
    }
  }

  /** The same in the machine: once a round has begun, 2n writes bring every entry up to the round's list. */
  lemma {:induction false} RoundCompletes(n: nat, s: State, k: nat)
    requires Inv(n, s) && s.pc + k == 2 * n
    ensures
      var t := Exec(n, s, seq(k, _ => WriteEntry));
      Inv(n, t) && t.pc == 2 * n && t.round == s.round
      && forall j :: 0 <= j < n ==> t.enc[j] == t.dec[j] == t.keys == s.keys
    decreases k
  {
    WritesAdvance(n, s, k);
    var t := Exec(n, s, seq(k, _ => WriteEntry));
    forall j | 0 <= j < n
      ensures t.enc[j] == t.dec[j] == t.keys
    {
      assert RoundOf(t, 2 * j) == t.round && RoundOf(t, 2 * j + 1) == t.round;
    }
  }

  lemma {:induction false} WritesAdvance(n: nat, s: State, k: nat)
    requires Inv(n, s) && s.pc + k <= 2 * n
    ensures
      var t := Exec(n, s, seq(k, _ => WriteEntry));
      Inv(n, t) && t.pc == s.pc + k && t.round == s.round && t.keys == s.keys
    decreases k
  {
    if k > 0 {
      var run := seq(k, _ => WriteEntry);
      assert run[..k - 1] == seq(k - 1, _ => WriteEntry);
      WritesAdvance(n, s, k - 1);
      ActKeeps(n, Exec(n, s, seq(k - 1, _ => WriteEntry)), WriteEntry);
    }
  }
}
