/**
 hash_table.c: entries preallocated in one global list, the used ones a prefix of
 it, each also on a doubly linked row list chosen by its key's hash.
 */
module HashTable {
  import opened Bits
  import opened Prime

  type Key = seq<bv8>
  type Value = seq<bv8>

  const NUM_ROW_FACTOR: nat := 7

  class Entry {
    var key: Key
    var value: Value
    var belong: int
    var prev: Entry?
    var next: Entry?
    var gprev: Entry?
    var gnext: Entry?

    constructor (keyLen: nat, valueLen: nat)
      ensures key == Zeros(keyLen) && value == Zeros(valueLen) && belong == -1 && prev == null && next == null
    {
      key, value, belong := Zeros(keyLen), Zeros(valueLen), -1;
      prev, next, gprev, gnext := null, null, null, null;
    }
  }

  // ---- the row lists, on a snapshot of the fields that link them ----

  /** The row heads and, per slot, the fields of its entry. */
  datatype Links = Links(head: seq<Entry?>, key: seq<Key>, belong: seq<int>, prev: seq<Entry?>, next: seq<Entry?>)

  ghost predicate Sized(slots: seq<Entry>, l: Links) {
    |l.key| == |l.belong| == |l.prev| == |l.next| == |slots| && |l.head| > 0
  }

  /** Member q of a row list, or null past its ends. */
  ghost function At(slots: seq<Entry>, row: seq<nat>, q: int): Entry? {
    if 0 <= q < |row| && row[q] < |slots| then slots[row[q]] else null
  }

  ghost predicate Linked(slots: seq<Entry>, l: Links, r: nat, row: seq<nat>, q: nat)
    requires Sized(slots, l) && q < |row| && row[q] < |slots|
  {
    && l.belong[row[q]] == r
    && l.next[row[q]] == At(slots, row, q + 1)
    && l.prev[row[q]] == At(slots, row, q - 1)
  }

  /** Row r is an acyclic, doubly linked list of used entries. */
  ghost predicate RowOk(slots: seq<Entry>, l: Links, used: nat, r: nat, row: seq<nat>)
    requires Sized(slots, l) && used <= |slots| && r < |l.head|
  {
    && l.head[r] == At(slots, row, 0)
    && (forall p, q :: 0 <= p < q < |row| ==> row[p] != row[q])
    && (forall q :: 0 <= q < |row| ==> row[q] < used)
    && forall q :: 0 <= q < |row| ==> Linked(slots, l, r, row, q)
  }

  /** Used entry i is on the row list of its hash. */
  ghost predicate Placed(hash: Key -> nat, l: Links, rows: seq<seq<nat>>, i: nat)
    requires i < |l.key| && i < |l.belong| && |rows| == |l.head| > 0
  {
    l.belong[i] == hash(l.key[i]) % |rows| && i in rows[hash(l.key[i]) % |rows|]
  }

  ghost predicate AllDifferent(slots: seq<Entry>) {
    forall i, j :: 0 <= i < j < |slots| ==> slots[i] != slots[j]
  }

  /** The used entries are exactly the members of the rows, each in the row of its hash, with distinct keys. */
  ghost predicate WellLinked(slots: seq<Entry>, hash: Key -> nat, keyLen: nat, l: Links, used: nat, rows: seq<seq<nat>>) {
    && Sized(slots, l) && AllDifferent(slots) && used <= |slots| && |rows| == |l.head|
    && (forall r :: 0 <= r < |rows| ==> RowOk(slots, l, used, r, rows[r]))
    && (forall i :: 0 <= i < used ==> Placed(hash, l, rows, i) && |l.key[i]| == keyLen)
    && (forall i, j :: 0 <= i < j < used ==> l.key[i] != l.key[j])
  }

  /** Without used entries, empty rows are well linked. */
  lemma NoRows(slots: seq<Entry>, hash: Key -> nat, keyLen: nat, l: Links)
    requires Sized(slots, l) && AllDifferent(slots) && forall r :: 0 <= r < |l.head| ==> l.head[r] == null
    ensures WellLinked(slots, hash, keyLen, l, 0, seq(|l.head|, _ => []))
  {
  }

  /** hashtable_link_node, on slot n filled with key t for row r. */
  ghost function LinkFront(slots: seq<Entry>, l: Links, n: nat, t: Key, r: nat): (l': Links)
    requires Sized(slots, l) && n < |slots| && r < |l.head|
    ensures Sized(slots, l') && |l'.head| == |l.head|
  {
    var prev := seq(|slots|, i requires 0 <= i < |slots| =>
                  if l.head[r] == slots[i] then slots[n] else l.prev[i]);
    Links(l.head[r := slots[n]], l.key[n := t], l.belong[n := r], prev[n := null], l.next[n := l.head[r]])
  }

  lemma OwnRowExtended(slots: seq<Entry>, l: Links, n: nat, t: Key, r: nat, row: seq<nat>)
    requires Sized(slots, l) && AllDifferent(slots) && n < |slots| && r < |l.head| && RowOk(slots, l, n, r, row)
    ensures RowOk(slots, LinkFront(slots, l, n, t, r), n + 1, r, [n] + row)
  {
    var l', more := LinkFront(slots, l, n, t, r), [n] + row;
    forall q | 0 <= q < |more|
      ensures Linked(slots, l', r, more, q)
    {
      if q > 0 {
        assert Linked(slots, l, r, row, q - 1);
        assert more[q] == row[q - 1];
        assert q > 1 ==> row[0] != row[q - 1];
      }
    }
  }

  lemma OtherRowKept(slots: seq<Entry>, l: Links, n: nat, t: Key, r: nat, own: seq<nat>, r': nat, row: seq<nat>)
    requires Sized(slots, l) && AllDifferent(slots) && n < |slots| && r < |l.head| && r' < |l.head| && r' != r
    requires RowOk(slots, l, n, r, own) && RowOk(slots, l, n, r', row)
    ensures RowOk(slots, LinkFront(slots, l, n, t, r), n + 1, r', row)
  {
    var l' := LinkFront(slots, l, n, t, r);
    if |own| > 0 {
      assert Linked(slots, l, r, own, 0);
    }
    forall q | 0 <= q < |row|
      ensures Linked(slots, l', r', row, q)
    {
      assert Linked(slots, l, r', row, q);
    }
  }

  /** Linking the first free slot, filled with a new key, keeps the structure; the new slot heads its row. */
  lemma LinkFrontKeeps(slots: seq<Entry>, hash: Key -> nat, keyLen: nat, l: Links, n: nat, rows: seq<seq<nat>>, t: Key)
    requires WellLinked(slots, hash, keyLen, l, n, rows) && n < |slots| && |t| == keyLen
    requires forall i :: 0 <= i < n ==> l.key[i] != t
    ensures
      var r := hash(t) % |rows|;
      WellLinked(slots, hash, keyLen, LinkFront(slots, l, n, t, r), n + 1, rows[r := [n] + rows[r]])
  {
    var r := hash(t) % |rows|;
    var l', rows' := LinkFront(slots, l, n, t, r), rows[r := [n] + rows[r]];
    forall r' | 0 <= r' < |rows'|
      ensures RowOk(slots, l', n + 1, r', rows'[r'])
    {
      if r' == r {
        OwnRowExtended(slots, l, n, t, r, rows[r]);
      } else {
        OtherRowKept(slots, l, n, t, r, rows[r], r', rows[r']);
      }
    }
    forall i | 0 <= i < n + 1
      ensures Placed(hash, l', rows', i) && |l'.key[i]| == keyLen
    {
      if i < n {
        assert Placed(hash, l, rows, i);
      } else {
        assert n in rows'[r];
      }
    }
  }

  datatype Found = Hit(entry: Entry) | Miss | Exhausted

  /** The loop of hashtable_init: maxSize blank entries, chained in order. */
  method MakeEntries(maxSize: nat, keyLen: nat, valueLen: nat) returns (es: seq<Entry>)
    ensures |es| == maxSize && AllDifferent(es) && forall i :: 0 <= i < maxSize ==> fresh(es[i])
    ensures forall i :: 0 <= i < maxSize ==> Chained(es, i)
  {
    es := [];
    for i := 0 to maxSize
      invariant |es| == i && AllDifferent(es) && forall j :: 0 <= j < i ==> fresh(es[j])
    {
      var e := new Entry(keyLen, valueLen);
      es := es + [e];
    }
    for i := 0 to maxSize
      invariant forall j :: 0 <= j < i ==> Chained(es, j)
    {
      label Before:
      es[i].gprev := if i == 0 then null else es[i - 1];
      es[i].gnext := if i == maxSize - 1 then null else es[i + 1];
      forall j | 0 <= j < i
        ensures Chained(es, j)
      {
        assert old@Before(Chained(es, j)) && es[j] != es[i];
      }
    }
  }

  ghost predicate Chained(es: seq<Entry>, i: nat)
    requires i < |es|
    reads es`gprev, es`gnext
  {
    && es[i].gprev == (if i == 0 then null else es[i - 1])
    && es[i].gnext == (if i == |es| - 1 then null else es[i + 1])
  }

  // ---- the object ----

  class HashTable {
    const keyLen: nat
    const valueLen: nat
    const hash: Key -> nat
    const slots: seq<Entry>          // the entries in global-list order
    const hashList: array<Entry?>
    var ghead: Entry?
    var gtail: Entry?
    var freeEntry: Entry?
    var curNumEntry: nat
    ghost var rows: seq<seq<nat>>    // the row lists, as slot numbers

    ghost function Snapshot(): (l: Links)
      reads hashList, slots
      ensures hashList.Length > 0 ==> Sized(slots, l)
    {
      Links(hashList[..],
            seq(|slots|, i requires 0 <= i < |slots| reads slots => slots[i].key),
            seq(|slots|, i requires 0 <= i < |slots| reads slots => slots[i].belong),
            seq(|slots|, i requires 0 <= i < |slots| reads slots => slots[i].prev),
            seq(|slots|, i requires 0 <= i < |slots| reads slots => slots[i].next))
    }

    ghost predicate GlobalList()
      reads slots`gprev, slots`gnext
    {
      forall i :: 0 <= i < |slots| ==> Chained(slots, i)
    }

    /** The global list: never relinked; the free entries are its tail. */
    ghost predicate GlobalOk()
      reads `ghead, `gtail, `freeEntry, `curNumEntry, slots`gprev, slots`gnext
    {
      && |slots| > 0 && AllDifferent(slots)
      && ghead == slots[0] && gtail == slots[|slots| - 1]
      && GlobalList()
      && curNumEntry <= |slots|
      && freeEntry == if curNumEntry < |slots| then slots[curNumEntry] else null
    }

    ghost predicate Valid()
      reads this, hashList, slots
    {
      GlobalOk() && WellLinked(slots, hash, keyLen, Snapshot(), curNumEntry, rows)
    }

    /** The table as an insertion-ordered finite map. */
    ghost function View(): (v: seq<(Key, Value)>)
      requires curNumEntry <= |slots|
      reads this, slots
      ensures |v| == curNumEntry
    {
      seq(curNumEntry, i requires 0 <= i < curNumEntry <= |slots| reads this, slots => (slots[i].key, slots[i].value))
    }

    /** hashtable_init: the row count is seven times the least prime that is at least maxSize. */
    constructor (maxSize: nat, keyLen: nat, valueLen: nat, hash: Key -> nat)
      requires maxSize > 0
      ensures Valid() && fresh(hashList) && (forall i :: 0 <= i < |slots| ==> fresh(slots[i]))
      ensures |slots| == maxSize && this.keyLen == keyLen && this.valueLen == valueLen && this.hash == hash
      ensures View() == []
      ensures LeastPrimeFrom(maxSize, hashList.Length / NUM_ROW_FACTOR)
      ensures hashList.Length == NUM_ROW_FACTOR * (hashList.Length / NUM_ROW_FACTOR)
    {
      var prime := CalcNextPrime(maxSize);
      var numList := prime * NUM_ROW_FACTOR;
      this.keyLen, this.valueLen, this.hash := keyLen, valueLen, hash;
      var entries := MakeEntries(maxSize, keyLen, valueLen);
      slots := entries;
      hashList := new Entry?[numList](_ => null);
      ghead, gtail, freeEntry, curNumEntry := entries[0], entries[maxSize - 1], entries[0], 0;
      rows := seq(numList, _ => []);
      new;
    }

    /** The walk along one row: the first entry with the key, if any. */
    method WalkRow(index: nat, ghost row: seq<nat>, t: Key) returns (entry: Entry?, ghost q: nat)
      requires index < hashList.Length && curNumEntry <= |slots|
      requires RowOk(slots, Snapshot(), curNumEntry, index, row)
      ensures q <= |row| && entry == At(slots, row, q)
      ensures q < |row| ==> slots[row[q]].key == t
      ensures q == |row| ==> entry == null && forall p :: 0 <= p < |row| ==> slots[row[p]].key != t
    {
      q := 0;
      entry := hashList[index];
      while entry != null
        invariant 0 <= q <= |row| && entry == At(slots, row, q)
        invariant forall p :: 0 <= p < q ==> slots[row[p]].key != t
        decreases |row| - q
      {
        assert Linked(slots, Snapshot(), index, row, q);
        if entry.key == t {
          return;
        }
        entry := entry.next;
        q := q + 1;
      }
    }

    /** hashtable_find_entry: the used entry with the key, or none. */
    method FindEntry(t: Key) returns (entry: Entry?, index: nat, ghost at: nat)
      requires Valid()
      ensures index == hash(t) % hashList.Length
      ensures entry != null ==> at < curNumEntry && entry == slots[at] && slots[at].key == t
      ensures entry == null ==> forall i :: 0 <= i < curNumEntry ==> slots[i].key != t
    {
      index := hash(t) % hashList.Length;
      ghost var row := rows[index];
      ghost var q;
      entry, q := WalkRow(index, row, t);
      at := if q < |row| then row[q] else 0;
      forall i | 0 <= i < curNumEntry && slots[i].key == t
        ensures entry != null
      {
        assert Placed(hash, Snapshot(), rows, i);
      }
    }

    /** The head of an entry's row, if it belongs to one. */
    ghost function RowHead(entry: Entry): Entry?
      reads entry`belong, hashList
    {
      if 0 <= entry.belong < hashList.Length then hashList[entry.belong] else null
    }

    /** hashtable_link_node: put an entry at the front of the row it belongs to; one without a row is left alone. */
    method LinkNode(entry: Entry)
      requires -1 <= entry.belong < hashList.Length && RowHead(entry) != entry
      modifies entry`prev, entry`next, hashList, (if RowHead(entry) != null then {RowHead(entry)} else {})`prev
      ensures entry.belong == -1 ==> entry.prev == old(entry.prev) && entry.next == old(entry.next)
                                     && hashList[..] == old(hashList[..])
      ensures entry.belong != -1 ==> entry.prev == null && entry.next == old(RowHead(entry))
                                     && hashList[..] == old(hashList[..])[entry.belong := entry]
      ensures old(RowHead(entry)) != null ==> old(RowHead(entry)).prev == entry
    {
      var index := entry.belong;
      if index == -1 {
        return;
      }
      if hashList[index] != null {
        entry.prev := null;
        entry.next := hashList[index];
        hashList[index].prev := entry;
        hashList[index] := entry;
      } else {
        entry.prev := null;
        entry.next := null;
        hashList[index] := entry;
      }
    }

    /** as_get_free_node: the first free entry, wiped; null, where the program ends, when there is none. */
    method GetFreeNode() returns (h: Entry?)
      modifies this`freeEntry, (if freeEntry != null then {freeEntry} else {})`key,
               (if freeEntry != null then {freeEntry} else {})`value
      ensures h == old(freeEntry) && freeEntry == if h == null then null else h.gnext
      ensures h != null ==> h.key == Zeros(keyLen) && h.value == Zeros(valueLen)
    {
      h := freeEntry;
      if h != null {
        freeEntry := freeEntry.gnext;
        h.key := Zeros(keyLen);
        h.value := Zeros(valueLen);
      }
    }

    /** Take a free entry and fill it. */
    method FillEntry(t: Key, index: nat) returns (m: Entry)
      requires GlobalOk() && freeEntry != null
      modifies this`freeEntry, freeEntry`key, freeEntry`value, freeEntry`belong
      ensures m == old(freeEntry) && freeEntry == m.gnext
      ensures m.key == t && m.value == Zeros(valueLen) && m.belong == index
    {
      m := GetFreeNode();
      m.key := t;
      m.belong := index;
    }

    /** Take a free entry, fill it and link it, field by field. */
    method Insert(t: Key, index: nat) returns (m: Entry)
      requires GlobalOk() && index < hashList.Length && freeEntry != null
      requires hashList[index] == null || hashList[index] in slots[..curNumEntry]
      modifies this`freeEntry, hashList, slots`key, slots`value, slots`belong, slots`prev, slots`next
      ensures m == slots[curNumEntry] && freeEntry == m.gnext && hashList[..] == old(hashList[..])[index := m]
      ensures m.key == t && m.value == Zeros(valueLen) && m.belong == index
      ensures m.prev == null && m.next == old(hashList[index])
      ensures forall i :: 0 <= i < |slots| && i != curNumEntry ==>
                && slots[i].key == old(slots[i].key) && slots[i].value == old(slots[i].value)
                && slots[i].belong == old(slots[i].belong) && slots[i].next == old(slots[i].next)
                && slots[i].prev == if old(hashList[index]) == slots[i] then m else old(slots[i].prev)
    {
      assert Chained(slots, curNumEntry);
      m := FillEntry(t, index);
      assert forall i :: 0 <= i < |slots| && i != curNumEntry ==> slots[i] != m;
      LinkNode(m);
    }

    /** The same on the snapshot. */
    method InsertFront(t: Key, index: nat) returns (m: Entry)
      requires GlobalOk() && index < hashList.Length && freeEntry != null
      requires hashList[index] == null || hashList[index] in slots[..curNumEntry]
      modifies this`freeEntry, hashList, slots`key, slots`value, slots`belong, slots`prev, slots`next
      ensures m == slots[curNumEntry] && freeEntry == m.gnext && m.key == t && m.value == Zeros(valueLen)
      ensures Snapshot() == LinkFront(slots, old(Snapshot()), curNumEntry, t, index)
      ensures forall i :: 0 <= i < |slots| && i != curNumEntry ==>
                slots[i].key == old(slots[i].key) && slots[i].value == old(slots[i].value)
    {
      m := Insert(t, index);
      ghost var l, want := Snapshot(), LinkFront(slots, old(Snapshot()), curNumEntry, t, index);
      assert l.key == want.key && l.belong == want.belong;
      assert l.next == want.next;
      assert l.prev == want.prev;
    }

    /** The same, and the entry is counted. */
    method Fill(t: Key, index: nat) returns (m: Entry)
      requires GlobalOk() && index < hashList.Length && freeEntry != null
      requires hashList[index] == null || hashList[index] in slots[..curNumEntry]
      modifies this`freeEntry, this`curNumEntry, hashList, slots`key, slots`value, slots`belong, slots`prev, slots`next
      ensures GlobalOk() && curNumEntry == old(curNumEntry) + 1 && m == slots[old(curNumEntry)]
      ensures Snapshot() == LinkFront(slots, old(Snapshot()), old(curNumEntry), t, index)
      ensures m.key == t && m.value == Zeros(valueLen)
      ensures forall i :: 0 <= i < |slots| && i != old(curNumEntry) ==>
                slots[i].key == old(slots[i].key) && slots[i].value == old(slots[i].value)
    {
      assert Chained(slots, curNumEntry);
      m := InsertFront(t, index);
      curNumEntry := curNumEntry + 1;
    }

    /** The new-key part of hashtable_find. */
    method Create(t: Key, index: nat) returns (m: Entry)
      requires Valid() && |t| == keyLen && index == hash(t) % hashList.Length && freeEntry != null
      requires forall i :: 0 <= i < curNumEntry ==> slots[i].key != t
      modifies this, hashList, slots
      ensures Valid() && m == slots[old(curNumEntry)]
      ensures View() == old(View()) + [(t, Zeros(valueLen))]
    {
      ghost var n, l := curNumEntry, Snapshot();
      HeadIsUsed(index);
      LinkFrontKeeps(slots, hash, keyLen, l, n, rows, t);
      m := Fill(t, index);
      rows := rows[index := [n] + rows[index]];
    }

    /** hashtable_find; running out of entries ends the program, here reported as Exhausted. */
    method Find(t: Key, isCreate: bool) returns (r: Found)
      requires Valid() && |t| == keyLen
      modifies this, hashList, slots
      ensures Valid()
      ensures r.Hit? ==> exists i :: 0 <= i < curNumEntry && r.entry == slots[i] && slots[i].key == t
      ensures (exists i :: 0 <= i < |old(View())| && old(View())[i].0 == t) ==> r.Hit? && View() == old(View())
      ensures (forall i :: 0 <= i < |old(View())| ==> old(View())[i].0 != t) ==>
                if !isCreate then r == Miss && View() == old(View())
                else if |old(View())| == |slots| then r == Exhausted && View() == old(View())
                else r.Hit? && View() == old(View()) + [(t, Zeros(valueLen))]
    {
      var match_, bucketNo, at := FindEntry(t);
      assert match_ != null ==> View()[at].0 == t;
      if match_ != null {
        return Hit(match_);
      }
      assert forall i :: 0 <= i < |View()| ==> View()[i].0 != t;
      if !isCreate {
        return Miss;
      }
      if freeEntry == null {
        return Exhausted;
      }
      var m := Create(t, bucketNo);
      assert View()[curNumEntry - 1] == (t, Zeros(valueLen));
      r := Hit(m);
    }

    /** The backward walk from the last used entry, by hashtable_reset. */
    method WipeUsed()
      requires GlobalOk()
      modifies slots`key, slots`value, slots`belong, slots`prev, slots`next
      ensures forall i :: 0 <= i < curNumEntry ==>
                slots[i].key == Zeros(keyLen) && slots[i].value == Zeros(valueLen) && slots[i].belong == -1
                && slots[i].prev == null && slots[i].next == null
    {
      ghost var n := curNumEntry;
      var h := LastUsed();
      while h != null
        invariant 0 <= n <= curNumEntry && h == if n == 0 then null else slots[n - 1]
        invariant forall i :: n <= i < curNumEntry ==>
                    slots[i].key == Zeros(keyLen) && slots[i].value == Zeros(valueLen) && slots[i].belong == -1
                    && slots[i].prev == null && slots[i].next == null
        decreases n
      {
        assert old(Chained(slots, n - 1));
        h.key := Zeros(keyLen);
        h.value := Zeros(valueLen);
        h.belong := -1;
        h.prev := null;
        h.next := null;
        h := h.gprev;
        n := n - 1;
      }
    }

    /** The entry before the first free one, or the tail when none is free. */
    method LastUsed() returns (h: Entry?)
      requires GlobalOk()
      ensures h == if curNumEntry == 0 then null else slots[curNumEntry - 1]
    {
      if freeEntry == null {
        h := gtail;
      } else {
        assert Chained(slots, curNumEntry);
        h := freeEntry.gprev;
      }
    }

    /** hashtable_reset, which does not look at the rows. */
    method Reset()
      requires GlobalOk() && hashList.Length > 0
      modifies this, hashList, slots
      ensures Valid() && View() == []
    {
      WipeUsed();
      freeEntry := ghead;
      curNumEntry := 0;
      ClearRows();
      rows := seq(hashList.Length, _ => []);
      EmptyIsValid();
    }

    lemma EmptyIsValid()
      requires GlobalOk() && curNumEntry == 0 && rows == seq(hashList.Length, _ => []) && hashList.Length > 0
      requires forall r :: 0 <= r < hashList.Length ==> hashList[r] == null
      ensures Valid()
    {
      NoRows(slots, hash, keyLen, Snapshot());
    }

    /** memset of the row heads. */
    method ClearRows()
      modifies hashList
      ensures forall r :: 0 <= r < hashList.Length ==> hashList[r] == null
    {
      for r := 0 to hashList.Length
        invariant forall q :: 0 <= q < r ==> hashList[q] == null
      {
        hashList[r] := null;
      }
    }

    /** hashtable_get_all: one copy of each used entry, newest first. */
    method GetAll() returns (all: seq<(Key, Value)>)
      requires Valid()
      ensures |all| == |View()| && forall i :: 0 <= i < |all| ==> all[i] == View()[|all| - 1 - i]
    {
      all := [];
      ghost var n := curNumEntry;
      var h := LastUsed();
      while h != null
        invariant 0 <= n <= curNumEntry && h == if n == 0 then null else slots[n - 1]
        invariant |all| == curNumEntry - n && forall i :: 0 <= i < |all| ==> all[i] == View()[curNumEntry - 1 - i]
        decreases n
      {
        assert Chained(slots, n - 1);
        all := all + [(h.key, h.value)];
        h := h.gprev;
        n := n - 1;
      }
    }

    /** Keys in the table are distinct, so it is a map. */
    lemma KeysDistinct(i: nat, j: nat)
      requires Valid() && i < j < curNumEntry
      ensures View()[i].0 != View()[j].0
    {
      assert Snapshot().key[i] != Snapshot().key[j];
    }

    /** The head of a row is a used entry. */
    lemma HeadIsUsed(r: nat)
      requires Valid() && r < hashList.Length
      ensures hashList[r] == null || hashList[r] in slots[..curNumEntry]
    {
      assert RowOk(slots, Snapshot(), curNumEntry, r, rows[r]);
    }
  }
}
