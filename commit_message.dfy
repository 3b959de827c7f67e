/**
 * The commit-message validator: a message is accepted when it contains the
 * watermark "GO BEARS!" as a contiguous substring.
 */
module CommitMessage {

  const GoBears: string := "GO BEARS!"

  /** `w` occurs in `msg` starting at position `k`. */
  predicate OccursAt(msg: string, w: string, k: int) {
    0 <= k && k + |w| <= |msg| && msg[k..k + |w|] == w
  }

  ghost predicate Contains(msg: string, w: string) {
    exists k :: OccursAt(msg, w, k)
  }

  /** No character of `w` after the first equals its first. */
  predicate FirstUnique(w: string) {
    forall d :: 1 <= d < |w| ==> w[d] != w[0]
  }

  /** A matching character extends a partial match by one. */
  lemma ExtendMatch(msg: string, w: string, i: int, j: int)
    requires 0 <= j <= i < |msg| && j < |w|
    requires msg[i - j..i] == w[..j] && msg[i] == w[j]
    ensures msg[i - j..i + 1] == w[..j + 1]
  {
    assert msg[i - j..i + 1] == msg[i - j..i] + [msg[i]];
    assert w[..j + 1] == w[..j] + [w[j]];
  }

  /** A character other than the first of `w` starts no occurrence. */
  lemma MismatchSkips(msg: string, w: string, i: int)
    requires 0 < |w| && 0 <= i < |msg| && msg[i] != w[0]
    ensures !OccursAt(msg, w, i)
  {
    if i + |w| <= |msg| {
      assert msg[i..i + |w|][0] == msg[i];
    }
  }

  /** When a partial match of length `j` breaks at `i`, no occurrence starts at
      its first position, nor inside it, whose characters all differ from the
      first of `w`. */
  lemma RestartSkips(msg: string, w: string, i: int, j: int)
    requires FirstUnique(w) && 0 < j < |w| && j <= i < |msg|
    requires msg[i - j..i] == w[..j] && msg[i] != w[j]
    ensures forall k :: i - j <= k < i ==> !OccursAt(msg, w, k)
  {
    forall k | i - j <= k < i
      ensures !OccursAt(msg, w, k)
    {
      if k == i - j {
        if i - j + |w| <= |msg| {
          assert msg[i - j..i - j + |w|][j] == msg[i];
        }
      } else {
        assert msg[k] == msg[i - j..i][k - (i - j)];
        assert msg[k] == w[..j][k - (i - j)];
        MismatchSkips(msg, w, k);
      }
    }
  }

  /**
   * The scan of `is_commit_msg_ok`: `j` counts how much of the watermark the characters
   * just before position `i` match. A matching character advances both; a
   * mismatch after a partial match restarts the match at the same position;
   * a mismatch with no partial match moves on. The restart never misses an
   * occurrence because the watermark's characters are pairwise distinct.
   */
  method IsCommitMsgOk(msg: string) returns (ok: bool)
    ensures ok <==> Contains(msg, GoBears)
    ensures msg == "" ==> !ok
  {
    var i, j := 0, 0;
    var bearLength := |GoBears|;
    assert FirstUnique(GoBears);
    while i < |msg|
      invariant 0 <= j < bearLength && j <= i <= |msg|
      invariant msg[i - j..i] == GoBears[..j]
      invariant forall k :: 0 <= k < i - j ==> !OccursAt(msg, GoBears, k)
      decreases |msg| - i, j
    {
      if msg[i] == GoBears[j] {
        ExtendMatch(msg, GoBears, i, j);
        i, j := i + 1, j + 1;
      } else if j > 0 && msg[i] != GoBears[j] {
        RestartSkips(msg, GoBears, i, j);
        j := 0;
      } else {
        MismatchSkips(msg, GoBears, i);
        i := i + 1;
      }
      if j == bearLength {
        assert GoBears[..j] == GoBears;
        assert OccursAt(msg, GoBears, i - j);
        return true;
      }
    }
    forall k | 0 <= k
      ensures !OccursAt(msg, GoBears, k)
    {
    }
    return false;
  }
}
