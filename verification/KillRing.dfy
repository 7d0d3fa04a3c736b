/** The kill ring: 16 slots used cyclically, standing for the most recent kills of an unbounded history. */
module KillRings {
  import opened Bytes

  const SLOTS := 16

  type Text = seq<byte>

  datatype Ring = Ring(slots: seq<Text>, len: nat, index: nat)

  const NO_SLOTS: seq<Text> := [[], [], [], [], [], [], [], [], [], [], [], [], [], [], [], []]

  const EMPTY := Ring(NO_SLOTS, 0, 0)

  /** The slots in use are a prefix, hold non-empty NUL-free text, and one of them is current. */
  predicate RingOk(r: Ring) {
    && |r.slots| == SLOTS && r.len <= SLOTS
    && (if r.len == 0 then r.index == 0 else r.index < r.len)
    && forall i :: 0 <= i < r.len ==> r.slots[i] != [] && NUL !in r.slots[i]
  }

  /** No rotation since the last fresh kill, as far as the ring can tell. */
  predicate Unrotated(r: Ring) {
    0 < r.len < SLOTS ==> r.index == r.len - 1
  }

  /** `editor_kill_set`. */
  function Push(r: Ring, data: Text, append: bool): Ring
    requires |r.slots| == SLOTS && r.len <= SLOTS && (r.len == SLOTS || r.index <= r.len) && r.index < SLOTS
  {
    if data == [] then r
    else if append && r.len > 0 then
      r.(slots := r.slots[r.index := r.slots[r.index] + data])
    else
      var next := if r.len < SLOTS then r.len else (r.index + 1) % SLOTS;
      Ring(r.slots[next := data], if r.len < SLOTS then r.len + 1 else SLOTS, next)
  }

  /** The step that a yank rotation takes. */
  function Rotate(r: Ring): Ring {
    if r.len > 1 then r.(index := if r.index == 0 then r.len - 1 else r.index - 1) else r
  }

  /** The entries in the order rotation brings them up, the current one first. */
  function View(r: Ring): (v: seq<Text>)
    requires RingOk(r)
    ensures |v| == r.len
    ensures forall k :: 0 <= k < r.len ==> v[k] == r.slots[if k <= r.index then r.index - k else r.index - k + r.len]
  {
    seq(r.len, k requires 0 <= k < r.len => r.slots[if k <= r.index then r.index - k else r.index - k + r.len])
  }

  lemma PushOk(r: Ring, data: Text, append: bool)
    requires RingOk(r) && NUL !in data
    ensures RingOk(Push(r, data, append))
    ensures Unrotated(r) ==> Unrotated(Push(r, data, append))
  {
  }

  /** Appending changes only the current entry. */
  lemma PushAppends(r: Ring, data: Text)
    requires RingOk(r) && r.len > 0 && NUL !in data && data != []
    ensures View(Push(r, data, true)) == [View(r)[0] + data] + View(r)[1..]
  {
    var v := View(Push(r, data, true));
    assert forall k :: 1 <= k < r.len ==> v[k] == View(r)[k];
  }

  /** The ring as it stands before any rotation: a ring that is not full takes a fresh kill behind its last slot. */
  function Unturned(r: Ring): (u: Ring)
    ensures RingOk(r) ==> RingOk(u) && u.len == r.len
    ensures Unrotated(r) ==> u == r
  {
    if 0 < r.len < SLOTS then r.(index := r.len - 1) else r
  }

  /** What a fresh kill leaves behind itself: all but the last entry in rotation order of a full ring. */
  function Older(r: Ring): seq<Text>
    requires RingOk(r)
  {
    if r.len < SLOTS then View(Unturned(r)) else View(r)[..SLOTS - 1]
  }

  /** A fresh kill comes first; it pushes an entry out only when the ring is full. */
  lemma PushIsFresh(r: Ring, data: Text, append: bool)
    requires RingOk(r) && NUL !in data && data != [] && (append ==> r.len == 0)
    ensures RingOk(Push(r, data, append)) && View(Push(r, data, append)) == [data] + Older(r)
  {
    PushOk(r, data, append);
    var v, w := View(Push(r, data, append)), [data] + Older(r);
    assert |v| == |w|;
    forall k | 0 <= k < |v|
      ensures v[k] == w[k]
    {
      FreshEntry(r, data, append, k);
    }
    hide View, Older, Push, RingOk;
    assert v == w;
  }

  /** Entry by entry: the new one first, the others one place further on. */
  lemma FreshEntry(r: Ring, data: Text, append: bool, k: nat)
    requires RingOk(r) && data != [] && (append ==> r.len == 0)
    requires RingOk(Push(r, data, append)) && k < Push(r, data, append).len
    ensures View(Push(r, data, append))[k] == if k == 0 then data else Older(r)[k - 1]
  {
    if r.len < SLOTS {
      FreshWithRoom(r, data, append, k);
    } else {
      FreshInFull(r, data, append, k);
    }
    hide Push, View, RingOk;
  }

  lemma FreshWithRoom(r: Ring, data: Text, append: bool, k: nat)
    requires RingOk(r) && data != [] && (append ==> r.len == 0) && r.len < SLOTS
    requires RingOk(Push(r, data, append)) && k < Push(r, data, append).len
    ensures View(Push(r, data, append))[k] == if k == 0 then data else View(Unturned(r))[k - 1]
  {
    var p := Push(r, data, append);
    assert p.index == r.len && p.slots == r.slots[r.len := data];
    if k > 0 {
      assert View(Unturned(r))[k - 1] == r.slots[r.len - k];
    }
  }

  lemma FreshInFull(r: Ring, data: Text, append: bool, k: nat)
    requires RingOk(r) && data != [] && !append && r.len == SLOTS
    requires RingOk(Push(r, data, append)) && k < Push(r, data, append).len
    ensures View(Push(r, data, append))[k] == if k == 0 then data else View(r)[k - 1]
  {
    var p := Push(r, data, append);
    assert p.index == (r.index + 1) % SLOTS && p.slots == r.slots[p.index := data];
  }

  /** Rotation brings up the next entry and puts the current one last. */
  lemma RotateShifts(r: Ring)
    requires RingOk(r) && r.len > 0
    ensures RingOk(Rotate(r))
    ensures View(Rotate(r)) == View(r)[1..] + [View(r)[0]]
  {
  }

  function RotateBy(r: Ring, k: nat): Ring {
    if k == 0 then r else Rotate(RotateBy(r, k - 1))
  }

  function Turn(i: nat, k: nat, n: nat): nat
    requires n > 0
  {
    (i + k) % n
  }

  lemma TurnStep(i: nat, k: nat, n: nat)
    requires i < n
    ensures k > 0 ==> Turn(i, k, n) == if i + 1 < n then Turn(i + 1, k - 1, n) else Turn(0, k - 1, n)
    ensures Turn(i, 0, n) == i
  {
    if k > 0 && i + 1 == n {
      assert (n + (k - 1)) % n == (k - 1) % n by {
        ModAdd(k - 1, n);
      }
    }
  }

  lemma ModAdd(a: nat, n: nat)
    requires n > 0
    ensures (n + a) % n == a % n
  {
    var q := a / n;
    assert n + a == (q + 1) * n + a % n;
    ModUnique(n + a, q + 1, a % n, n);
  }

  lemma ModUnique(x: int, q: int, r: int, n: int)
    requires n > 0 && 0 <= r < n && x == q * n + r
    ensures x % n == r
  {
    MulAway(x / n - q, n);
    assert (x / n - q) * n == r - x % n;
  }

  lemma MulAway(d: int, n: int)
    requires n > 0
    ensures d >= 1 ==> d * n >= n
    ensures d <= -1 ==> d * n <= -n
  {
    assert d * n == n + (d - 1) * n == -n + (d + 1) * n;
  }

  /** After k rotations the entries stand k places further on, cyclically. */
  lemma {:induction false} RotateByTurns(r: Ring, k: nat, i: nat)
    requires RingOk(r) && i < r.len
    ensures RingOk(RotateBy(r, k)) && RotateBy(r, k).len == r.len
    ensures View(RotateBy(r, k))[i] == View(r)[Turn(i, k, r.len)]
    decreases k
  {
    TurnStep(i, k, r.len);
    if k > 0 {
      var next := if i + 1 < r.len then i + 1 else 0;
      RotateByTurns(r, k - 1, next);
      RotateShifts(RotateBy(r, k - 1));
    }
  }

  // ---------- the unbounded history ----------

  datatype Kill = Kill(text: Text, append: bool)

  /** All kills ever made, the newest first; an appending kill extends the newest. */
  function History(ks: seq<Kill>): seq<Text>
    decreases |ks|
  {
    if ks == [] then [] else Remember(History(ks[..|ks| - 1]), ks[|ks| - 1])
  }

  function PushAll(r: Ring, ks: seq<Kill>): (s: Ring)
    requires RingOk(r) && forall i :: 0 <= i < |ks| ==> NUL !in ks[i].text
    ensures RingOk(s)
    decreases |ks|
  {
    if ks == [] then r
    else
      var s := PushAll(r, ks[..|ks| - 1]);
      PushOk(s, ks[|ks| - 1].text, ks[|ks| - 1].append);
      Push(s, ks[|ks| - 1].text, ks[|ks| - 1].append)
  }

  /** The ring holds the newest entries of a history, as many as fit. */
  predicate Holds(r: Ring, h: seq<Text>)
    requires RingOk(r)
  {
    Unrotated(r) && r.len == Min(|h|, SLOTS) && View(r) == h[..r.len]
  }

  function Remember(h: seq<Text>, k: Kill): seq<Text> {
    if k.text == [] then h
    else if k.append && h != [] then [h[0] + k.text] + h[1..]
    else [k.text] + h
  }

  lemma HoldsAfterPush(r: Ring, h: seq<Text>, k: Kill)
    requires RingOk(r) && NUL !in k.text && Holds(r, h)
    ensures RingOk(Push(r, k.text, k.append))
    ensures Holds(Push(r, k.text, k.append), Remember(h, k))
  {
    PushOk(r, k.text, k.append);
    if k.text != [] {
      if k.append && r.len > 0 {
        PushAppends(r, k.text);
      } else {
        PushIsFresh(r, k.text, k.append);
      }
    }
  }

  lemma {:induction false} PushAllHolds(ks: seq<Kill>)
    requires forall i :: 0 <= i < |ks| ==> NUL !in ks[i].text
    ensures Holds(PushAll(EMPTY, ks), History(ks))
    decreases |ks|
  {
    if ks != [] {
      PushAllHolds(ks[..|ks| - 1]);
      HoldsAfterPush(PushAll(EMPTY, ks[..|ks| - 1]), History(ks[..|ks| - 1]), ks[|ks| - 1]);
    }
  }

  /**
   Without rotation the ring holds the newest kills of the history: as many as
   fit, the k-th newest in slot (index - k) mod 16.
   */
  lemma RingRefinesHistory(ks: seq<Kill>)
    requires forall i :: 0 <= i < |ks| ==> NUL !in ks[i].text
    ensures Holds(PushAll(EMPTY, ks), History(ks))
    ensures InSlots(PushAll(EMPTY, ks), History(ks))
  {
    PushAllHolds(ks);
    HoldsInSlots(PushAll(EMPTY, ks), History(ks));
  }

  /** The k-th newest entry is in slot (index - k) mod 16. */
  predicate InSlots(r: Ring, h: seq<Text>)
    requires RingOk(r)
  {
    r.len <= |h| && forall k :: 0 <= k < r.len ==> r.slots[(r.index - k) % SLOTS] == h[k]
  }

  lemma HoldsInSlots(r: Ring, h: seq<Text>)
    requires RingOk(r) && Holds(r, h)
    ensures InSlots(r, h)
  {
    forall k | 0 <= k < r.len
      ensures r.slots[(r.index - k) % SLOTS] == h[k]
    {
      assert View(r)[k] == h[k];
    }
  }

  /**
   Rotating a full ring before a fresh kill changes which entry is lost: it is
   the oldest one exactly when the number of rotations is a multiple of 16.
   */
  lemma RotationChangesVictim(r: Ring, j: nat, data: Text)
    requires RingOk(r) && r.len == SLOTS && NUL !in data && data != []
    ensures RingOk(RotateBy(r, j)) && RotateBy(r, j).len == SLOTS
    ensures var v := View(Push(RotateBy(r, j), data, false));
            && v[0] == data
            && forall k :: 1 <= k < SLOTS ==> v[k] == View(r)[Turn(k - 1, j, SLOTS)]
    ensures Turn(SLOTS - 1, j, SLOTS) == SLOTS - 1 <==> j % SLOTS == 0
  {
    LastTurn(j);
    RotateByTurns(r, j, 0);
    var turned := RotateBy(r, j);
    PushIsFresh(turned, data, false);
    forall k | 1 <= k < SLOTS
      ensures View(Push(turned, data, false))[k] == View(r)[Turn(k - 1, j, SLOTS)]
    {
      RotateByTurns(r, j, k - 1);
    }
  }

  lemma LastTurn(j: nat)
    ensures Turn(SLOTS - 1, j, SLOTS) == SLOTS - 1 <==> j % SLOTS == 0
  {
  }

  // ---------- the ring of the editor ----------

  class KillRing {
    const slots: array<Text>
    var len: nat
    var index: nat

    ghost predicate Valid()
      reads this, slots
    {
      slots.Length == SLOTS && RingOk(Contents())
    }

    function Contents(): Ring
      reads this, slots
    {
      Ring(slots[..], len, index)
    }

    constructor ()
      ensures Valid() && fresh(slots) && Contents() == EMPTY
    {
      slots := new Text[SLOTS](_ => []);
      len, index := 0, 0;
    }

    /** An empty kill changes nothing; a fresh one takes the next slot; an appending one extends the current slot. */
    method Set(data: Text, append: bool)
      requires Valid() && NUL !in data
      modifies this, slots
      ensures Valid() && Contents() == Push(old(Contents()), data, append)
    {
      PushOk(Contents(), data, append);
      if |data| == 0 {
        return;
      }
      if !append || len == 0 {
        var nextIndex := 0;
        if len < SLOTS {
          nextIndex := len;
          len := len + 1;
        } else {
          nextIndex := (index + 1) % SLOTS;
        }
        index := nextIndex;
        slots[nextIndex] := [];
      }
      assert [] + data == data;
      slots[index] := slots[index] + data;
    }

    /** Makes the previous entry current, going round at the start. */
    method StepBack()
      requires Valid()
      modifies this`index
      ensures Valid() && Contents() == Rotate(old(Contents()))
    {
      var max := if len < SLOTS then len else SLOTS;
      if max > 1 {
        if index == 0 {
          index := max - 1;
        } else {
          index := index - 1;
        }
      }
    }
  }
}
