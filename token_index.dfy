/** The per-owner enumeration index `ownerTokens`: (owner, 1-based position) -> token id.
    This module states, without loops, what removing a token from an owner's list does;
    the loop that does it is NFT.NFT.RemoveFromTokenList. */
module TokenIndex {
  import opened Types

  type IndexMap = map<(Addr, int), Bytes>

  /** The entries of `a` at positions i, i+1, ... up to the first empty position,
      and never beyond position TotalSupplyValue: the range the removal loop scans. */
  function Run(m: IndexMap, a: Addr, i: int): (r: seq<Bytes>)
    requires 1 <= i <= TotalSupplyValue + 1
    ensures i + |r| <= TotalSupplyValue + 1
    ensures forall p :: i <= p < i + |r| ==> (a, p) in m
    ensures forall n :: 0 <= n < |r| ==> m[(a, i + n)] == r[n]
    ensures i + |r| <= TotalSupplyValue ==> (a, i + |r|) !in m
    decreases TotalSupplyValue + 1 - i
  {
    if i > TotalSupplyValue || (a, i) !in m then []
    else [m[(a, i)]] + Run(m, a, i + 1)
  }

  /** The owner's token list as enumeration sees it: positions 1, 2, ... up to the first gap. */
  function Listed(m: IndexMap, a: Addr): seq<Bytes>
  {
    Run(m, a, 1)
  }

  /** The position of the first occurrence of `t` in `s`, if any. */
  function IndexOf(s: seq<Bytes>, t: Bytes): (r: Option<nat>)
    ensures r.Some? ==> r.value < |s| && s[r.value] == t && t !in s[..r.value]
    ensures r.None? ==> t !in s
  {
    if s == [] then None
    else if s[0] == t then Some(0)
    else match IndexOf(s[1..], t)
      case None => None
      case Some(j) => assert s[1..][..j] == s[1..j + 1]; Some(j + 1)
  }

  /** A position holding `t` with no earlier `t` is the one IndexOf finds. */
  lemma IndexOfFirst(s: seq<Bytes>, t: Bytes, n: nat)
    requires n < |s| && s[n] == t && t !in s[..n]
    ensures IndexOf(s, t) == Some(n)
  {
  }

  /** `s` with its first occurrence of `t` taken out: the reference meaning of a removal. */
  function RemoveFirst(s: seq<Bytes>, t: Bytes): (r: seq<Bytes>)
    ensures t !in s ==> r == s
    ensures t in s ==> |r| == |s| - 1
  {
    if s == [] then []
    else
      assert s == [s[0]] + s[1..];
      if s[0] == t then s[1..] else [s[0]] + RemoveFirst(s[1..], t)
  }

  /** Removing the first occurrence, found at position j, cuts the list around j. */
  lemma {:induction false} RemoveFirstAt(s: seq<Bytes>, t: Bytes, j: nat)
    requires j < |s| && s[j] == t && t !in s[..j]
    ensures RemoveFirst(s, t) == s[..j] + s[j + 1..]
  {
    if j == 0 {
      assert RemoveFirst(s, t) == s[1..];
    } else {
      assert s[0] == s[..j][0];
      var tail := s[1..];
      assert tail[..j - 1] == s[1..j];
      assert forall x :: x in s[1..j] ==> x in s[..j];
      RemoveFirstAt(tail, t, j - 1);
      assert RemoveFirst(s, t) == [s[0]] + RemoveFirst(tail, t);
      assert tail[j..] == s[j + 1..];
      assert s[..j] == [s[0]] + s[1..j];
    }
  }

  /** The index after the entry at position j of the run j..k of `a` has been taken out and
      the entries at j+1..k have each moved down one place: position k is then empty.
      (Within a run every position j+1..k holds an entry; the guard only keeps the
      definition total.) */
  function ShiftDown(m: IndexMap, a: Addr, j: int, k: int): (r: IndexMap)
    ensures (a, k) !in r
  {
    map key | key in m && key != (a, k) ::
      if key.0 == a && j <= key.1 < k && (a, key.1 + 1) in m then m[(a, key.1 + 1)] else m[key]
  }

  /** What RemoveFromTokenList does to the index, and what it returns: it aborts on a
      malformed address or an empty id; otherwise it removes the first occurrence of
      `tokenId` in the owner's listed range, compacting the entries after it, and
      reports whether it found one. */
  function Remove(m: IndexMap, address: Bytes, tokenId: Bytes): (r: (IndexMap, Result<bool>))
    ensures r.1.Abort? <==> |address| != 20 || tokenId == []
    ensures r.1 != Ret(true) ==> r.0 == m
  {
    if |address| != 20 || tokenId == [] then (m, Abort)
    else
      var a: Addr := address;
      var s := Listed(m, a);
      match IndexOf(s, tokenId)
      case None => (m, Ret(false))
      case Some(j) => (ShiftDown(m, a, j + 1, |s|), Ret(true))
  }

  /** A list laid out at positions 1..|u| of `a` and followed by an empty position
      (or reaching the scan bound) is exactly what Listed reads back. */
  lemma ListedExactly(m: IndexMap, a: Addr, u: seq<Bytes>)
    requires |u| <= TotalSupplyValue
    requires forall p :: 1 <= p <= |u| ==> (a, p) in m && m[(a, p)] == u[p - 1]
    requires |u| < TotalSupplyValue ==> (a, |u| + 1) !in m
    ensures Listed(m, a) == u
  {
    var r := Listed(m, a);
    assert |r| + 1 <= |u| ==> (a, |r| + 1) in m;
    assert |u| + 1 <= |r| ==> (a, |u| + 1) in m;
    assert |r| == |u|;
    forall i | 0 <= i < |r|
      ensures r[i] == u[i]
    {
      assert m[(a, i + 1)] == r[i];
    }
  }

  /** Removal takes the first occurrence of the token out of the owner's list, keeping
      the order of the rest, and reports whether the token was listed. */
  lemma RemoveListed(m: IndexMap, a: Addr, t: Bytes)
    requires t != []
    ensures Remove(m, a, t).1 == Ret(t in Listed(m, a))
    ensures Listed(Remove(m, a, t).0, a) == RemoveFirst(Listed(m, a), t)
  {
    var r := IndexOf(Listed(m, a), t);
    if r.Some? {
      RemoveFound(m, a, t, r.value);
    } else {
      RemoveNotFound(m, a, t);
    }
  }

  /** Token listed, first at list index j: the call answers true and the list loses
      exactly that entry. */
  lemma RemoveFound(m: IndexMap, a: Addr, t: Bytes, j: nat)
    requires t != []
    requires IndexOf(Listed(m, a), t) == Some(j)
    ensures Remove(m, a, t).1 == Ret(true)
    ensures Listed(Remove(m, a, t).0, a) == RemoveFirst(Listed(m, a), t)
  {
    ScanFoundAnswer(m, a, t, j);
    ScanFoundShift(m, a, t, j);
    ShiftDownListed(m, a, t, j);
  }

  /** Token not listed: the call answers false and the index is unchanged. */
  lemma RemoveNotFound(m: IndexMap, a: Addr, t: Bytes)
    requires t != []
    requires t !in Listed(m, a)
    ensures Remove(m, a, t) == (m, Ret(false))
  {
  }

  /** Shifting out the first occurrence of `t` removes it from the list. */
  lemma ShiftDownListed(m: IndexMap, a: Addr, t: Bytes, j: nat)
    requires IndexOf(Listed(m, a), t) == Some(j)
    ensures Listed(ShiftDown(m, a, j + 1, |Listed(m, a)|), a) == RemoveFirst(Listed(m, a), t)
    ensures Listed(ShiftDown(m, a, j + 1, |Listed(m, a)|), a) == Listed(m, a)[..j] + Listed(m, a)[j + 1..]
  {
    ShiftDownLayout(m, a, j);
    RemoveFirstAt(Listed(m, a), t, j);
  }

  /** Shifting out the entry at list index j (position j + 1) leaves the list without it. */
  lemma ShiftDownLayout(m: IndexMap, a: Addr, j: nat)
    requires j < |Listed(m, a)|
    ensures Listed(ShiftDown(m, a, j + 1, |Listed(m, a)|), a) == Listed(m, a)[..j] + Listed(m, a)[j + 1..]
  {
    ShiftDownFrom(m, a, Listed(m, a), j, ShiftDown(m, a, j + 1, |Listed(m, a)|));
  }

  /** ShiftDownLayout with the list and the shifted index named. */
  lemma ShiftDownFrom(m: IndexMap, a: Addr, s: seq<Bytes>, j: nat, m': IndexMap)
    requires s == Listed(m, a) && j < |s|
    requires m' == ShiftDown(m, a, j + 1, |s|)
    ensures Listed(m', a) == s[..j] + s[j + 1..]
  {
    var u := s[..j] + s[j + 1..];
    forall p | 1 <= p <= |u|
      ensures (a, p) in m' && m'[(a, p)] == u[p - 1]
    {
      ShiftDownAt(m, a, s, j, p);
    }
    ListedExactly(m', a, u);
  }

  /** One position of the shifted list. */
  lemma ShiftDownAt(m: IndexMap, a: Addr, s: seq<Bytes>, j: nat, p: int)
    requires s == Listed(m, a) && j < |s| && 1 <= p < |s|
    ensures (a, p) in ShiftDown(m, a, j + 1, |s|)
    ensures ShiftDown(m, a, j + 1, |s|)[(a, p)] == (s[..j] + s[j + 1..])[p - 1]
  {
    CutAt(s, j, p);
    ScanInRun(m, a, p);
    if p <= j {
      ShiftKeeps(m, a, j + 1, |s|, p);
    } else {
      ScanInRun(m, a, p + 1);
      ShiftMoves(m, a, j + 1, |s|, p);
    }
  }

  /** Entry p - 1 of the list with index j cut out. */
  lemma CutAt(s: seq<Bytes>, j: nat, p: int)
    requires j < |s| && 1 <= p < |s|
    ensures (s[..j] + s[j + 1..])[p - 1] == if p <= j then s[p - 1] else s[p]
  {
  }

  /** Positions below the shifted range keep their entries. */
  lemma ShiftKeeps(m: IndexMap, a: Addr, j: int, k: int, p: int)
    requires p < j <= k && (a, p) in m
    ensures (a, p) in ShiftDown(m, a, j, k) && ShiftDown(m, a, j, k)[(a, p)] == m[(a, p)]
  {
  }

  /** Positions inside the shifted range take the entry one above them. */
  lemma ShiftMoves(m: IndexMap, a: Addr, j: int, k: int, p: int)
    requires j <= p < k && (a, p) in m && (a, p + 1) in m
    ensures (a, p) in ShiftDown(m, a, j, k) && ShiftDown(m, a, j, k)[(a, p)] == m[(a, p + 1)]
  {
  }

  /** Removal touches only positions 1..k of the owner, k being the length of its list;
      when the token was listed, position k is emptied. */
  lemma RemoveFrame(m: IndexMap, a: Addr, t: Bytes)
    requires t != []
    ensures var m' := Remove(m, a, t).0;
      && (forall key: (Addr, int) :: key.0 != a || key.1 < 1 || key.1 > |Listed(m, a)| ==>
            (key in m' <==> key in m) && (key in m ==> m'[key] == m[key]))
      && (t in Listed(m, a) ==> (a, |Listed(m, a)|) !in m')
  {
    var s := Listed(m, a);
    match IndexOf(s, t)
    case None =>
    case Some(j) =>
  }

  /** Writing the token at the position just past the owner's list appends it to the
      list, provided the position after that one is empty. */
  lemma AppendListed(m: IndexMap, a: Addr, t: Bytes)
    requires |Listed(m, a)| < TotalSupplyValue
    requires |Listed(m, a)| + 2 <= TotalSupplyValue ==> (a, |Listed(m, a)| + 2) !in m
    ensures Listed(m[(a, |Listed(m, a)| + 1) := t], a) == Listed(m, a) + [t]
  {
    AppendLayout(m, a, Listed(m, a), t, m[(a, |Listed(m, a)| + 1) := t]);
  }

  /** The layout facts behind AppendListed. */
  lemma AppendLayout(m: IndexMap, a: Addr, s: seq<Bytes>, t: Bytes, m': IndexMap)
    requires s == Listed(m, a) && |s| < TotalSupplyValue
    requires |s| + 2 <= TotalSupplyValue ==> (a, |s| + 2) !in m
    requires m' == m[(a, |s| + 1) := t]
    ensures Listed(m', a) == s + [t]
  {
    var u := s + [t];
    forall p | 1 <= p <= |u|
      ensures (a, p) in m' && m'[(a, p)] == u[p - 1]
    {
      AppendAt(m, a, s, t, p);
    }
    ListedExactly(m', a, u);
  }

  /** One position of the appended list. */
  lemma AppendAt(m: IndexMap, a: Addr, s: seq<Bytes>, t: Bytes, p: int)
    requires s == Listed(m, a) && 1 <= p <= |s| + 1
    ensures (a, p) in m[(a, |s| + 1) := t] && m[(a, |s| + 1) := t][(a, p)] == (s + [t])[p - 1]
  {
    if p <= |s| {
      assert m[(a, 1 + (p - 1))] == s[p - 1];
    }
  }

  /** Each position the removal loop visits inside the listed run holds that
      run's entry. */
  lemma ScanInRun(m: IndexMap, a: Addr, i: int)
    requires 1 <= i <= |Listed(m, a)|
    ensures (a, i) in m && m[(a, i)] == Listed(m, a)[i - 1]
  {
    assert m[(a, 1 + (i - 1))] == Listed(m, a)[i - 1];
  }

  /** A prefix that misses `t` still misses it after one more entry that is not `t`. */
  lemma MissExtend(s: seq<Bytes>, t: Bytes, n: nat)
    requires n < |s| && s[n] != t && t !in s[..n]
    ensures t !in s[..n + 1]
  {
    assert s[..n + 1] == s[..n] + [s[n]];
  }

  /** The index the removal loop has produced after visiting positions 1..k of `a`:
      untouched while nothing was found; once the first occurrence was found at list
      index j, its position deleted and the entries after it up to position k moved
      down by one. */
  function ScanIndex(m0: IndexMap, a: Addr, k: int, found: Option<nat>): IndexMap
  {
    match found
    case None => m0
    case Some(j) => ShiftDown(m0, a, j + 1, k)
  }

  /** What the removal loop knows after visiting positions 1..k of `a`: they are in the
      run, and either `t` is not among them or its first occurrence is at list index j. */
  ghost predicate Scanned(m0: IndexMap, a: Addr, t: Bytes, k: nat, found: Option<nat>)
  {
    && k <= |Listed(m0, a)|
    && match found
       case None => t !in Listed(m0, a)[..k]
       case Some(j) => j < k && IndexOf(Listed(m0, a), t) == Some(j)
  }

  /** Before the loop nothing has been visited. */
  lemma ScanStart(m0: IndexMap, a: Addr, t: Bytes)
    ensures Scanned(m0, a, t, 0, None)
  {
  }

  /** The loop's next position k + 1 holds an entry exactly when it is inside the run. */
  lemma ScanProbe(m0: IndexMap, a: Addr, t: Bytes, k: nat, found: Option<nat>)
    requires Scanned(m0, a, t, k, found) && k < TotalSupplyValue
    ensures (a, k + 1) in ScanIndex(m0, a, k, found) <==> k < |Listed(m0, a)|
  {
    if found.Some? {
      ShiftAbove(m0, a, found.value + 1, k, k + 1);
    }
    if k < |Listed(m0, a)| {
      ScanInRun(m0, a, k + 1);
    }
  }

  /** Nothing found yet and the entry at position k + 1 is not `t`: move on. */
  lemma ScanMiss(m0: IndexMap, a: Addr, t: Bytes, k: nat)
    requires Scanned(m0, a, t, k, None) && k < |Listed(m0, a)|
    requires m0[(a, k + 1)] != t
    ensures Scanned(m0, a, t, k + 1, None)
    ensures ScanIndex(m0, a, k + 1, None) == ScanIndex(m0, a, k, None)
  {
    ScanInRun(m0, a, k + 1);
    MissExtend(Listed(m0, a), t, k);
  }

  /** Nothing found yet and the entry at position k + 1 is `t`: delete it. */
  lemma ScanHit(m0: IndexMap, a: Addr, t: Bytes, k: nat)
    requires Scanned(m0, a, t, k, None) && k < |Listed(m0, a)|
    requires m0[(a, k + 1)] == t
    ensures Scanned(m0, a, t, k + 1, Some(k))
    ensures ScanIndex(m0, a, k + 1, Some(k)) == ScanIndex(m0, a, k, None) - {(a, k + 1)}
  {
    ScanInRun(m0, a, k + 1);
    IndexOfFirst(Listed(m0, a), t, k);
    ShiftStart(m0, a, k + 1);
  }

  /** After the deletion the loop moves on through the run... */
  lemma ScanShift(m0: IndexMap, a: Addr, t: Bytes, k: nat, j: nat)
    requires Scanned(m0, a, t, k, Some(j)) && k < |Listed(m0, a)|
    ensures Scanned(m0, a, t, k + 1, Some(j))
  {
  }

  /** ...moving the entry at position k + 1 down into position k. */
  lemma ScanShiftIndex(m0: IndexMap, a: Addr, k: nat, j: nat)
    requires j < k < |Listed(m0, a)|
    ensures var cur := ScanIndex(m0, a, k, Some(j));
      (a, k + 1) in cur && ScanIndex(m0, a, k + 1, Some(j)) == cur[(a, k) := cur[(a, k + 1)]] - {(a, k + 1)}
  {
    ScanInRun(m0, a, k);
    ScanInRun(m0, a, k + 1);
    ShiftExtend(m0, a, j + 1, k, ScanIndex(m0, a, k, Some(j)), ScanIndex(m0, a, k + 1, Some(j)));
  }

  /** ScanShiftIndex on the shifted maps alone. */
  lemma ShiftExtend(m: IndexMap, a: Addr, j: int, k: int, cur: IndexMap, next: IndexMap)
    requires j <= k && (a, k) in m && (a, k + 1) in m
    requires cur == ShiftDown(m, a, j, k) && next == ShiftDown(m, a, j, k + 1)
    ensures (a, k + 1) in cur && next == cur[(a, k) := cur[(a, k + 1)]] - {(a, k + 1)}
  {
    ShiftStep(m, a, j, k);
  }

  /** The loop stops, at the bound or at an empty position, exactly at the end of the run. */
  lemma ScanStop(m0: IndexMap, a: Addr, t: Bytes, k: nat, found: Option<nat>)
    requires Scanned(m0, a, t, k, found)
    requires k == TotalSupplyValue || (a, k + 1) !in ScanIndex(m0, a, k, found)
    ensures k == |Listed(m0, a)|
  {
    if k < TotalSupplyValue {
      ScanProbe(m0, a, t, k, found);
    }
  }

  /** Having visited the whole run, the loop has computed Remove's result. */
  lemma ScanEnd(m0: IndexMap, a: Addr, t: Bytes, k: nat, found: Option<nat>)
    requires t != [] && Scanned(m0, a, t, k, found)
    requires k == TotalSupplyValue || (a, k + 1) !in ScanIndex(m0, a, k, found)
    ensures Remove(m0, a, t) == (ScanIndex(m0, a, k, found), Ret(found.Some?))
  {
    ScanEndIndex(m0, a, t, k, found);
    ScanEndAnswer(m0, a, t, k, found);
  }

  /** The index part of ScanEnd... */
  lemma ScanEndIndex(m0: IndexMap, a: Addr, t: Bytes, k: nat, found: Option<nat>)
    requires t != [] && Scanned(m0, a, t, k, found)
    requires k == TotalSupplyValue || (a, k + 1) !in ScanIndex(m0, a, k, found)
    ensures Remove(m0, a, t).0 == ScanIndex(m0, a, k, found)
  {
    ScanStop(m0, a, t, k, found);
    if found.Some? {
      ScanFoundShift(m0, a, t, found.value);
    } else {
      assert Listed(m0, a)[..k] == Listed(m0, a);
      RemoveNotFound(m0, a, t);
    }
  }

  /** ...and its answer. */
  lemma ScanEndAnswer(m0: IndexMap, a: Addr, t: Bytes, k: nat, found: Option<nat>)
    requires t != [] && Scanned(m0, a, t, k, found)
    requires k == TotalSupplyValue || (a, k + 1) !in ScanIndex(m0, a, k, found)
    ensures Remove(m0, a, t).1 == Ret(found.Some?)
  {
    ScanStop(m0, a, t, k, found);
    if found.Some? {
      ScanFoundAnswer(m0, a, t, found.value);
    } else {
      assert Listed(m0, a)[..k] == Listed(m0, a);
      RemoveNotFound(m0, a, t);
    }
  }

  /** Positions above the shifted range are untouched. */
  lemma ShiftAbove(m: IndexMap, a: Addr, j: int, k: int, p: int)
    requires k < p
    ensures (a, p) in ShiftDown(m, a, j, k) <==> (a, p) in m
    ensures (a, p) in m ==> ShiftDown(m, a, j, k)[(a, p)] == m[(a, p)]
  {
  }

  /** A listed token makes the removal answer true. */
  lemma ScanFoundAnswer(m: IndexMap, a: Addr, t: Bytes, j: nat)
    requires t != []
    requires IndexOf(Listed(m, a), t) == Some(j)
    ensures Remove(m, a, t).1 == Ret(true)
  {
  }

  /** The removal loop ends after shifting the rest of the run down from the first
      occurrence at list index j (position j + 1): that is Remove's new index. */
  lemma ScanFoundShift(m: IndexMap, a: Addr, t: Bytes, j: nat)
    requires t != []
    requires IndexOf(Listed(m, a), t) == Some(j)
    ensures Remove(m, a, t).0 == ShiftDown(m, a, j + 1, |Listed(m, a)|)
  {
  }

  /** The removal loop's first deletion: taking out the entry at position i is the
      shift of the one-slot run i..i. */
  lemma ShiftStart(m: IndexMap, a: Addr, i: int)
    requires 1 <= i
    ensures ShiftDown(m, a, i, i) == m - {(a, i)}
  {
  }

  /** One shifting step of the removal loop: moving the entry at position k + 1 down
      into the emptied position k extends the shifted range by one. */
  lemma ShiftStep(m: IndexMap, a: Addr, j: int, k: int)
    requires j <= k && (a, k) in m && (a, k + 1) in m
    ensures var cur := ShiftDown(m, a, j, k);
      (a, k + 1) in cur && cur[(a, k + 1)] == m[(a, k + 1)] &&
      ShiftDown(m, a, j, k + 1) == cur[(a, k) := cur[(a, k + 1)]] - {(a, k + 1)}
  {
    var cur := ShiftDown(m, a, j, k);
    var next := ShiftDown(m, a, j, k + 1);
    var stepped := cur[(a, k) := m[(a, k + 1)]] - {(a, k + 1)};
    assert next.Keys == stepped.Keys;
    forall key | key in next
      ensures next[key] == stepped[key]
    {
    }
  }
}
