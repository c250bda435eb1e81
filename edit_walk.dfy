/** The string relation behind the trie search: which strings the edit walk
    of `FindSimilar` reaches from a query within a budget of edits, and what
    a budget of zero and of one allows. */
module EditWalk {

  /** `t` is reached from `s` by the edit walk of `FindSimilar` with budget
      `d`: each step either matches the next character of `s` for free, or
      spends one unit to insert a character, delete the next character of `s`,
      substitute it, or move the character after it to the front. */
  ghost predicate Reachable(s: string, t: string, d: int)
    decreases d, |s| + |t|
  {
    && d >= 0
    && (|| (t != [] && Reachable(s, t[1..], d - 1))
        || (s == [] && t == [])
        || (s != [] && t != [] && t[0] == s[0] && Reachable(s[1..], t[1..], d))
        || (s != [] && d > 0 && Reachable(s[1..], t, d - 1))
        || (s != [] && t != [] && d > 0 && t[0] != s[0] && Reachable(s[1..], t[1..], d - 1))
        || (|s| > 1 && t != [] && d > 0 && t[0] == s[1] && Reachable([s[0]] + s[2..], t[1..], d - 1)))
  }

  /** `t` is `s` with the character at `i` removed. */
  ghost predicate DeleteAt(s: string, t: string, i: int) {
    0 <= i < |s| && t == s[..i] + s[i + 1..]
  }

  /** `t` is `s` with the characters at `i` and `i + 1` swapped. */
  ghost predicate SwapAt(s: string, t: string, i: int) {
    0 <= i < |s| - 1 && t == s[..i] + [s[i + 1], s[i]] + s[i + 2..]
  }

  /** `t` is `s` with the character at `i` replaced by `t[i]`. */
  ghost predicate ReplaceAt(s: string, t: string, i: int) {
    0 <= i < |s| && |t| == |s| && t == s[..i] + [t[i]] + s[i + 1..]
  }

  /** `t` is `s` with the character `t[i]` inserted before position `i`. */
  ghost predicate InsertAt(s: string, t: string, i: int) {
    0 <= i <= |s| && |t| == |s| + 1 && t == s[..i] + [t[i]] + s[i..]
  }

  /** `t` is one deletion, adjacent swap, replacement or insertion away from `s`. */
  ghost predicate OneEdit(s: string, t: string) {
    exists i :: DeleteAt(s, t, i) || SwapAt(s, t, i) || ReplaceAt(s, t, i) || InsertAt(s, t, i)
  }

  /** With no budget the walk can only match: it reaches `s` and nothing else. */
  lemma {:induction false} ReachableExact(s: string, t: string)
    ensures Reachable(s, t, 0) <==> t == s
    decreases |s| + |t|
  {
    if s != [] && t != [] {
      ReachableExact(s[1..], t[1..]);
      if t == s {
        assert t[1..] == s[1..];
      }
      if t[0] == s[0] && t[1..] == s[1..] {
        assert t == [t[0]] + t[1..] && s == [s[0]] + s[1..];
      }
    }
  }

  /** Every query reaches itself with any budget. */
  lemma {:induction false} ReachableSelf(s: string, d: int)
    requires d >= 0
    ensures Reachable(s, s, d)
    decreases |s|
  {
    if s != [] {
      ReachableSelf(s[1..], d);
    }
  }

  /** A larger budget reaches everything a smaller one does. */
  lemma {:induction false} ReachableMonotone(s: string, t: string, d: int, e: int)
    requires d <= e && Reachable(s, t, d)
    ensures Reachable(s, t, e)
    decreases d, |s| + |t|
  {
    if t != [] && Reachable(s, t[1..], d - 1) {
      ReachableMonotone(s, t[1..], d - 1, e - 1);
    } else if s == [] && t == [] {
    } else if s != [] && t != [] && t[0] == s[0] && Reachable(s[1..], t[1..], d) {
      ReachableMonotone(s[1..], t[1..], d, e);
    } else if s != [] && d > 0 && Reachable(s[1..], t, d - 1) {
      ReachableMonotone(s[1..], t, d - 1, e - 1);
    } else if s != [] && t != [] && d > 0 && t[0] != s[0] && Reachable(s[1..], t[1..], d - 1) {
      ReachableMonotone(s[1..], t[1..], d - 1, e - 1);
    } else {
      ReachableMonotone([s[0]] + s[2..], t[1..], d - 1, e - 1);
    }
  }

  /** Each edit changes the length by at most one, so a walk with budget `d`
      ends within `d` characters of the query's length. */
  lemma {:induction false} ReachableLength(s: string, t: string, d: int)
    requires Reachable(s, t, d)
    ensures |s| - d <= |t| <= |s| + d
    decreases d, |s| + |t|
  {
    if t != [] && Reachable(s, t[1..], d - 1) {
      ReachableLength(s, t[1..], d - 1);
    } else if s == [] && t == [] {
    } else if s != [] && t != [] && t[0] == s[0] && Reachable(s[1..], t[1..], d) {
      ReachableLength(s[1..], t[1..], d);
    } else if s != [] && d > 0 && Reachable(s[1..], t, d - 1) {
      ReachableLength(s[1..], t, d - 1);
    } else if s != [] && t != [] && d > 0 && t[0] != s[0] && Reachable(s[1..], t[1..], d - 1) {
      ReachableLength(s[1..], t[1..], d - 1);
    } else {
      ReachableLength([s[0]] + s[2..], t[1..], d - 1);
    }
  }

  /** A budget of one reaches exactly the query and the strings one
      deletion, adjacent swap, replacement or insertion away from it. */
  lemma ReachableOne(s: string, t: string)
    ensures Reachable(s, t, 1) <==> t == s || OneEdit(s, t)
  {
    if Reachable(s, t, 1) {
      OneFromWalk(s, t);
    }
    if t == s {
      ReachableSelf(s, 1);
    } else if OneEdit(s, t) {
      var i :| DeleteAt(s, t, i) || SwapAt(s, t, i) || ReplaceAt(s, t, i) || InsertAt(s, t, i);
      WalkFromOne(s, t, i);
    }
  }

  /** A walk with budget one performs at most one edit. */
  lemma {:induction false} OneFromWalk(s: string, t: string)
    requires Reachable(s, t, 1)
    ensures t == s || OneEdit(s, t)
    decreases |s| + |t|
  {
    if t != [] && Reachable(s, t[1..], 0) {
      ReachableExact(s, t[1..]);
      assert InsertAt(s, t, 0);
    } else if s == [] && t == [] {
    } else if s != [] && t != [] && t[0] == s[0] && Reachable(s[1..], t[1..], 1) {
      OneFromWalk(s[1..], t[1..]);
      if t[1..] == s[1..] {
        assert t == [t[0]] + t[1..] && s == [s[0]] + s[1..];
      } else {
        var i :| DeleteAt(s[1..], t[1..], i) || SwapAt(s[1..], t[1..], i) || ReplaceAt(s[1..], t[1..], i) || InsertAt(s[1..], t[1..], i);
        ShiftEdit(s, t, i);
      }
    } else if s != [] && Reachable(s[1..], t, 0) {
      ReachableExact(s[1..], t);
      assert DeleteAt(s, t, 0);
    } else if s != [] && t != [] && t[0] != s[0] && Reachable(s[1..], t[1..], 0) {
      ReachableExact(s[1..], t[1..]);
      assert t == [t[0]] + t[1..];
      assert ReplaceAt(s, t, 0);
    } else {
      ReachableExact([s[0]] + s[2..], t[1..]);
      assert t == [t[0]] + t[1..];
      assert SwapAt(s, t, 0);
    }
  }

  /** An edit at `i` behind a common first character is an edit at `i + 1`. */
  lemma ShiftEdit(s: string, t: string, i: int)
    requires s != [] && t != [] && t[0] == s[0]
    requires DeleteAt(s[1..], t[1..], i) || SwapAt(s[1..], t[1..], i) || ReplaceAt(s[1..], t[1..], i) || InsertAt(s[1..], t[1..], i)
    ensures DeleteAt(s, t, i + 1) || SwapAt(s, t, i + 1) || ReplaceAt(s, t, i + 1) || InsertAt(s, t, i + 1)
  {
    assert s == [s[0]] + s[1..] && t == [t[0]] + t[1..];
    assert s[..i + 1] == [s[0]] + s[1..][..i];
    assert s[i + 1..] == s[1..][i..];
    if i + 2 <= |s| {
      assert s[i + 2..] == s[1..][i + 1..];
    }
    if i + 3 <= |s| {
      assert s[i + 3..] == s[1..][i + 2..];
    }
  }

  /** Each single edit is reached with budget one. */
  lemma {:induction false} WalkFromOne(s: string, t: string, i: int)
    requires DeleteAt(s, t, i) || SwapAt(s, t, i) || ReplaceAt(s, t, i) || InsertAt(s, t, i)
    ensures Reachable(s, t, 1)
    decreases i
  {
    if i == 0 {
      if InsertAt(s, t, 0) {
        assert t[1..] == s;
        ReachableExact(s, t[1..]);
      } else if DeleteAt(s, t, 0) {
        ReachableExact(s[1..], t);
      } else if ReplaceAt(s, t, 0) {
        assert t[1..] == s[1..];
        ReachableExact(s[1..], t[1..]);
        if t[0] == s[0] {
          assert t == s;
          ReachableSelf(s, 1);
        }
      } else {
        assert t[1..] == [s[0]] + s[2..];
        ReachableExact([s[0]] + s[2..], t[1..]);
      }
    } else {
      assert s[..i] == [s[0]] + s[1..][..i - 1];
      assert t[0] == s[0];
      UnshiftEdit(s, t, i);
      WalkFromOne(s[1..], t[1..], i - 1);
    }
  }

  /** An edit at `i > 0` leaves the first character alone and is an edit at
      `i - 1` of the tails. */
  lemma UnshiftEdit(s: string, t: string, i: int)
    requires i > 0
    requires DeleteAt(s, t, i) || SwapAt(s, t, i) || ReplaceAt(s, t, i) || InsertAt(s, t, i)
    ensures s != [] && t != [] && t[0] == s[0]
    ensures DeleteAt(s[1..], t[1..], i - 1) || SwapAt(s[1..], t[1..], i - 1) || ReplaceAt(s[1..], t[1..], i - 1) || InsertAt(s[1..], t[1..], i - 1)
  {
    assert s[..i] == [s[0]] + s[1..][..i - 1];
    assert s[i..] == s[1..][i - 1..];
    if i + 1 <= |s| {
      assert s[i + 1..] == s[1..][i..];
    }
    if i + 2 <= |s| {
      assert s[i + 2..] == s[1..][i + 1..];
    }
    if DeleteAt(s, t, i) {
      assert t[1..] == s[1..][..i - 1] + s[1..][i..];
    } else if SwapAt(s, t, i) {
      assert t[1..] == s[1..][..i - 1] + [s[1..][i], s[1..][i - 1]] + s[1..][i + 1..];
    } else if ReplaceAt(s, t, i) {
      assert t[1..] == s[1..][..i - 1] + [t[1..][i - 1]] + s[1..][i..];
    } else {
      assert t[1..] == s[1..][..i - 1] + [t[1..][i - 1]] + s[1..][i - 1..];
    }
  }
}
