/** Directories as flat arrays of 32-byte slots (fs/exfat/exfat_file.c and fs/exfat/exfat_inode.c): the set
    that starts at a slot, the view of a directory as entries, and what writing or deleting a set does to
    that view at every single slot write. */
module Directories {
  import opened Bytes
  import opened Checksum
  import opened Dentries

  /** The slots of all directories. */
  type Dirs = seq<seq<Dentry>>

  function Put(slots: seq<Dentry>, i: nat, e: Dentry): seq<Dentry>
    requires i < |slots|
  {
    slots[i := e]
  }

  /** What a lookup delivers for a set: its name, first cluster and size. */
  datatype Entry = Entry(name: seq<u16>, start: u32, size: u64)

  /** Entries of the set a file entry opens. */
  function Total(d: Dentry): nat { 1 + NumExt(d) as int }

  /** exfat_get_dentry_set accepts the set at slot i. */
  predicate SetHere(slots: seq<Dentry>, i: nat) {
    && i < |slots| && Type(slots[i]) == FILE && Total(slots[i]) <= SET_MAX && i + Total(slots[i]) <= |slots|
    && forall k :: i < k < i + Total(slots[i]) ==> Secondary(slots[k])
  }

  function SetOf(slots: seq<Dentry>, i: nat): (s: seq<Dentry>)
    requires SetHere(slots, i)
    ensures |s| == Total(slots[i])
  {
    slots[i..i + Total(slots[i])]
  }

  /** The set at slot i is complete, its checksum is right and its name can be extracted. */
  predicate LiveAt(slots: seq<Dentry>, i: nat) {
    SetHere(slots, i) && Valid(SetOf(slots, i)) && Named(SetOf(slots, i))
  }

  function EntryAt(slots: seq<Dentry>, i: nat): Option<Entry> {
    if LiveAt(slots, i) then
      var s := SetOf(slots, i);
      Some(Entry(NameOf(s), StartClu(s[1]), Size(s[1])))
    else None
  }

  /** The directory as a sequence of entries, one per slot that opens a live set. */
  function View(slots: seq<Dentry>): (v: seq<Option<Entry>>)
    ensures |v| == |slots| && forall i :: 0 <= i < |slots| ==> v[i] == EntryAt(slots, i)
  {
    seq(|slots|, i requires 0 <= i < |slots| => EntryAt(slots, i))
  }

  /** Every slot after the first unused slot is unused: nothing is hidden behind the terminator. */
  predicate Terminated(slots: seq<Dentry>) {
    forall i, j :: 0 <= i < j < |slots| && Type(slots[i]) == UNUSED ==> Type(slots[j]) == UNUSED
  }

  /** Every valid set long enough for a name carries one, and both ways of extracting it agree. */
  ghost predicate Tidy(slots: seq<Dentry>) {
    forall i: nat :: SetHere(slots, i) ==> TidyAt(slots, i)
  }

  predicate TidyAt(slots: seq<Dentry>, i: nat)
    requires SetHere(slots, i)
  {
    var s := SetOf(slots, i);
    Valid(s) && |s| >= 3 ==> Named(s) && IsText(s, NameOf(s))
  }

  // ----- what a change of slots does to the view

  lemma EntrySame(a: seq<Dentry>, b: seq<Dentry>, i: nat)
    requires |a| == |b| && i < |a| && SetHere(a, i) && forall k :: i <= k < i + Total(a[i]) ==> a[k] == b[k]
    ensures EntryAt(b, i) == EntryAt(a, i)
  {
    hide Valid, Named, NameOf;
    assert SetHere(b, i);
    assert SetOf(a, i) == SetOf(b, i);
  }

  /** Slots lo..hi changed, neither before nor after does slot lo continue a set or any later one of them
      open one: only the entry at lo can differ. */
  lemma ViewFrame(a: seq<Dentry>, b: seq<Dentry>, lo: nat, hi: nat)
    requires |a| == |b| && lo < hi <= |a|
    requires forall k :: 0 <= k < |a| && !(lo <= k < hi) ==> a[k] == b[k]
    requires !Secondary(a[lo]) && !Secondary(b[lo])
    requires forall k :: lo < k < hi ==> Type(a[k]) != FILE && Type(b[k]) != FILE
    ensures View(b) == View(a)[lo := EntryAt(b, lo)]
  {
    hide Valid, Named, NameOf, View;
    forall j | 0 <= j < |a| && j != lo
      ensures EntryAt(b, j) == EntryAt(a, j)
    {
      if SetHere(a, j) {
        EntrySame(a, b, j);
      }
    }
    ViewsEqual(View(a)[lo := EntryAt(b, lo)], b);
  }

  /** The same change leaves the sets of the other slots as they are. */
  lemma TidyFrame(a: seq<Dentry>, b: seq<Dentry>, lo: nat, hi: nat)
    requires |a| == |b| && lo < hi <= |a|
    requires forall k :: 0 <= k < |a| && !(lo <= k < hi) ==> a[k] == b[k]
    requires !Secondary(a[lo]) && !Secondary(b[lo])
    requires forall k :: lo < k < hi ==> Type(a[k]) != FILE && Type(b[k]) != FILE
    requires Tidy(a) && (SetHere(b, lo) ==> TidyAt(b, lo))
    ensures Tidy(b)
  {
    hide Valid, Named, NameOf, IsText;
    forall i: nat | SetHere(b, i)
      ensures TidyAt(b, i)
    {
      if i != lo {
        assert SetHere(a, i);
        assert SetOf(a, i) == SetOf(b, i);
      }
    }
  }

  lemma ViewsEqual(v: seq<Option<Entry>>, b: seq<Dentry>)
    requires |v| == |b| && forall i :: 0 <= i < |b| ==> v[i] == EntryAt(b, i)
    ensures v == View(b)
  {
  }

  // ----- filling a window of reusable slots

  predicate Window(slots: seq<Dentry>, w: nat, n: nat) {
    w + n <= |slots| && forall k :: w <= k < w + n ==> Reusable(slots[k])
  }

  /** A window before which no slot is unused. */
  predicate Fits(slots: seq<Dentry>, w: nat, n: nat) {
    Window(slots, w, n) && forall k :: 0 <= k < w ==> Type(slots[k]) != UNUSED
  }

  /** `p` is a beginning of the set of `n` slots for entry `e`: either it still says it has no secondary
      entries, or some are missing, or it carries the entry. */
  predicate Filling(n: nat, e: Entry, p: seq<Dentry>) {
    && 1 <= |p| <= n && Type(p[0]) == FILE && (forall k :: 1 <= k < |p| ==> Secondary(p[k]))
    && (NumExt(p[0]) == 0 || (Total(p[0]) == n && (|p| < n || Carries(p, e))))
  }

  predicate Carries(p: seq<Dentry>, e: Entry) {
    && Named(p) && NameOf(p) == e.name && StartClu(p[1]) == e.start && Size(p[1]) == e.size
    && (0 !in e.name ==> IsText(p, e.name))
  }

  lemma SpliceReads(a: seq<Dentry>, w: nat, p: seq<Dentry>, k: nat)
    requires w + |p| <= |a| && k < |a|
    ensures Splice(a, w, p)[k] == if w <= k < w + |p| then p[k - w] else a[k]
  {
  }

  /** At every stage of filling, the view is the old one or has gained exactly the entry. */
  lemma FillView(a: seq<Dentry>, w: nat, n: nat, e: Entry, p: seq<Dentry>)
    requires n >= 2 && Fits(a, w, n) && Terminated(a) && Filling(n, e, p)
    ensures var b := Splice(a, w, p);
            && Terminated(b) && View(a)[w] == None
            && (View(b) == View(a) || View(b) == View(a)[w := Some(e)])
            && (|p| == n && Valid(p) && Total(p[0]) == n ==> View(b) == View(a)[w := Some(e)])
            && (Tidy(a) && 0 !in e.name ==> Tidy(b))
  {
    hide Valid, Named, NameOf, Splice, View, IsText, Tidy;
    var b := Splice(a, w, p);
    forall k | 0 <= k < |a|
      ensures b[k] == if w <= k < w + |p| then p[k - w] else a[k]
    {
      SpliceReads(a, w, p, k);
    }
    FillEntry(a, w, n, e, p);
    ViewFrame(a, b, w, w + n);
    assert View(a)[w := None] == View(a);
    if Tidy(a) && 0 !in e.name {
      TidyFrame(a, b, w, w + n);
    }
  }

  lemma FillEntry(a: seq<Dentry>, w: nat, n: nat, e: Entry, p: seq<Dentry>)
    requires n >= 2 && Window(a, w, n) && Filling(n, e, p)
    ensures var b := Splice(a, w, p);
            && EntryAt(a, w) == None
            && (EntryAt(b, w) == None || EntryAt(b, w) == Some(e))
            && (|p| == n && Valid(p) && Total(p[0]) == n ==> EntryAt(b, w) == Some(e))
            && (SetHere(b, w) && 0 !in e.name ==> TidyAt(b, w))
  {
    hide Valid, NameOf, Splice, IsText;
    var b := Splice(a, w, p);
    forall k | 0 <= k < |a|
      ensures b[k] == if w <= k < w + |p| then p[k - w] else a[k]
    {
      SpliceReads(a, w, p, k);
    }
    assert |p| < n ==> Reusable(b[w + |p|]);
    if SetHere(b, w) && Total(p[0]) == n {
      assert |p| == n;
      assert b[w..w + n] == p;
    }
    if |p| == n && Total(p[0]) == n && n <= SET_MAX {
      assert SetHere(b, w);
    }
    ValidIsShort(p);
  }

  lemma ValidIsShort(p: seq<Dentry>)
    ensures Valid(p) ==> |p| <= SET_MAX
  {
  }

  // ----- deleting a set

  function Tombstones(s: seq<Dentry>): (r: seq<Dentry>)
    ensures |r| == |s| && forall i :: 0 <= i < |s| ==> r[i] == Tombstone(s[i])
  {
    seq(|s|, i requires 0 <= i < |s| => Tombstone(s[i]))
  }

  /** From the first slot written on, the view has lost exactly the entry. */
  lemma DeleteView(a: seq<Dentry>, i: nat, k: nat)
    requires SetHere(a, i) && 1 <= k <= Total(a[i]) && Terminated(a)
    ensures var b := Splice(a, i, Tombstones(SetOf(a, i))[..k]);
            Terminated(b) && View(b) == View(a)[i := None] && (Tidy(a) ==> Tidy(b))
  {
    hide Valid, Named, NameOf, Splice, View, IsText, Tidy;
    var n := Total(a[i]);
    var t := Tombstones(SetOf(a, i))[..k];
    var b := Splice(a, i, t);
    forall j | 0 <= j < |a|
      ensures b[j] == if i <= j < i + k then Tombstone(a[j]) else a[j]
    {
      SpliceReads(a, i, t, j);
    }
    ViewFrame(a, b, i, i + n);
    if Tidy(a) {
      TidyFrame(a, b, i, i + n);
    }
  }

  // ----- refreshing a set in place

  /** A set whose first entry is replaced by one that keeps its type, its count and makes the checksum
      right, at any stage of writing it back. */
  lemma RefreshView(a: seq<Dentry>, i: nat, head: Dentry, k: nat)
    requires SetHere(a, i) && 1 <= k <= Total(a[i]) && Terminated(a)
    requires Type(head) == FILE && NumExt(head) == NumExt(a[i]) && Valid(SetOf(a, i)) && Valid(SetOf(a, i)[0 := head])
    ensures var b := Splice(a, i, SetOf(a, i)[0 := head][..k]);
            && Terminated(b) && View(b) == View(a) && SetHere(b, i) && SetOf(b, i) == SetOf(a, i)[0 := head]
            && b == a[i := head] && (Tidy(a) ==> Tidy(b))
  {
    hide Valid, NameOf, Splice, View, IsText, Tidy;
    var n := Total(a[i]);
    var s := SetOf(a, i)[0 := head];
    var b := Splice(a, i, s[..k]);
    forall j | 0 <= j < |a|
      ensures b[j] == if j == i then head else a[j]
    {
      SpliceReads(a, i, s[..k], j);
    }
    assert SetHere(b, i);
    assert SetOf(b, i) == s;
    ViewFrame(a, b, i, i + n);
    SameName(SetOf(a, i), head);
    assert View(a)[i := EntryAt(a, i)] == View(a);
    if Tidy(a) {
      TidyHere(a, i);
      TidyFrame(a, b, i, i + n);
    }
  }

  lemma TidyHere(slots: seq<Dentry>, i: nat)
    requires Tidy(slots) && SetHere(slots, i)
    ensures TidyAt(slots, i)
  {
  }

  lemma SameName(s: seq<Dentry>, head: Dentry)
    requires s != [] && Type(head) == Type(s[0])
    ensures Named(s) <==> Named(s[0 := head])
    ensures Named(s) ==> NameOf(s[0 := head]) == NameOf(s)
    ensures forall text :: IsText(s, text) ==> IsText(s[0 := head], text)
  {
    hide Unit;
    var t := s[0 := head];
    assert forall i :: 1 <= i < |s| ==> Type(t[i]) == Type(s[i]);
    if Named(s) {
      var len: nat := NameLen(s[1]);
      forall k | 0 <= k < len
        ensures NameOf(s[0 := head])[k] == NameOf(s)[k]
      {
        UnitInRange(k, len);
      }
    }
  }
}
