/** The least and the greatest entry of a non-empty sequence of reals, as
    LINQ's `Min` and `Max` compute them. */
module MinMax {
  /** `Min` of a non-empty sequence. */
  function MinOf(s: seq<real>): real
    requires |s| > 0
  {
    if |s| == 1 then s[0]
    else
      var m := MinOf(s[1..]);
      if s[0] <= m then s[0] else m
  }

  /** `Max` of a non-empty sequence. */
  function MaxOf(s: seq<real>): real
    requires |s| > 0
  {
    if |s| == 1 then s[0]
    else
      var m := MaxOf(s[1..]);
      if s[0] >= m then s[0] else m
  }

  lemma {:induction false} MinOfBounds(s: seq<real>)
    requires |s| > 0
    ensures forall k :: 0 <= k < |s| ==> MinOf(s) <= s[k]
    ensures exists k :: 0 <= k < |s| && s[k] == MinOf(s)
  {
    if |s| == 1 {
      assert s[0] == MinOf(s);
    } else {
      MinOfBounds(s[1..]);
      var j :| 0 <= j < |s[1..]| && s[1..][j] == MinOf(s[1..]);
      assert s[j + 1] == MinOf(s[1..]);
      if s[0] <= MinOf(s[1..]) {
        assert s[0] == MinOf(s);
      } else {
        assert s[j + 1] == MinOf(s);
      }
      forall k | 1 <= k < |s| ensures MinOf(s) <= s[k] {
        assert s[k] == s[1..][k - 1];
      }
    }
  }

  lemma {:induction false} MaxOfBounds(s: seq<real>)
    requires |s| > 0
    ensures forall k :: 0 <= k < |s| ==> s[k] <= MaxOf(s)
    ensures exists k :: 0 <= k < |s| && s[k] == MaxOf(s)
  {
    if |s| == 1 {
      assert s[0] == MaxOf(s);
    } else {
      MaxOfBounds(s[1..]);
      var j :| 0 <= j < |s[1..]| && s[1..][j] == MaxOf(s[1..]);
      assert s[j + 1] == MaxOf(s[1..]);
      if s[0] >= MaxOf(s[1..]) {
        assert s[0] == MaxOf(s);
      } else {
        assert s[j + 1] == MaxOf(s);
      }
      forall k | 1 <= k < |s| ensures s[k] <= MaxOf(s) {
        assert s[k] == s[1..][k - 1];
      }
    }
  }
}
