/** Tag stripping: every match of the expression `<[^>]*>` is removed. */
module Sanitize {

  /** Index of the first c in s from position i on, or |s|. */
  function FirstFrom(s: string, c: char, i: nat): (k: nat)
    requires i <= |s|
    ensures i <= k <= |s|
    ensures forall j :: i <= j < k ==> s[j] != c
    ensures k < |s| ==> s[k] == c
    decreases |s| - i
  {
    if i == |s| || s[i] == c then i else FirstFrom(s, c, i + 1)
  }

  /** The leftmost match starts at the first '<' and ends at the first '>' after it. */
  function Strip(s: string): string
    decreases |s|
  {
    var open := FirstFrom(s, '<', 0);
    if open == |s| then s
    else
      var close := FirstFrom(s, '>', open);
      if close == |s| then s else s[..open] + Strip(s[close + 1..])
  }

  // ---------------------------------------------------------------------------------------------
  // Position by position

  /** Position k lies in a tag: it is reached from some '<' without passing a '>', and a '>' follows. */
  ghost predicate InTag(s: string, k: nat)
    requires k < |s|
  {
    && (exists i :: 0 <= i <= k && Opens(s, i, k))
    && (exists j :: k <= j < |s| && s[j] == '>')
  }

  ghost predicate Opens(s: string, i: nat, k: nat)
    requires i <= k < |s|
  {
    s[i] == '<' && forall m :: i <= m < k ==> s[m] != '>'
  }

  ghost function OutsideTags(s: string, to: nat): string
    requires to <= |s|
  {
    if to == 0 then "" else OutsideTags(s, to - 1) + if InTag(s, to - 1) then "" else [s[to - 1]]
  }

  lemma {:induction false} OutsidePrefix(s: string, to: nat)
    requires to <= |s| && forall k :: 0 <= k < to ==> !InTag(s, k)
    ensures OutsideTags(s, to) == s[..to]
  {
    if to > 0 {
      OutsidePrefix(s, to - 1);
      assert s[..to] == s[..to - 1] + [s[to - 1]];
    }
  }

  lemma {:induction false} OutsideGap(s: string, from: nat, upto: nat)
    requires from <= upto <= |s| && forall k :: from <= k < upto ==> InTag(s, k)
    ensures OutsideTags(s, upto) == OutsideTags(s, from)
    decreases upto
  {
    if from < upto {
      OutsideGap(s, from, upto - 1);
    }
  }

  /** After a '>' a position is in a tag of the whole text exactly when it is in one of the rest. */
  lemma TagAfterClose(s: string, close: nat, k: nat)
    requires close < |s| && s[close] == '>' && close + 1 + k < |s|
    ensures InTag(s, close + 1 + k) <==> InTag(s[close + 1..], k)
  {
    var rest := s[close + 1..];
    if InTag(s, close + 1 + k) {
      var i :| 0 <= i <= close + 1 + k && Opens(s, i, close + 1 + k);
      var j :| close + 1 + k <= j < |s| && s[j] == '>';
      assert i > close;
      assert Opens(rest, i - close - 1, k);
      assert rest[j - close - 1] == '>';
    }
    if InTag(rest, k) {
      var i :| 0 <= i <= k && Opens(rest, i, k);
      var j :| k <= j < |rest| && rest[j] == '>';
      forall m | close + 1 + i <= m < close + 1 + k ensures s[m] != '>' {
        assert rest[m - close - 1] != '>';
      }
      assert Opens(s, close + 1 + i, close + 1 + k);
      assert s[close + 1 + j] == '>';
    }
  }

  lemma {:induction false} OutsideRest(s: string, close: nat, k: nat)
    requires close < |s| && s[close] == '>' && close + 1 + k <= |s|
    ensures OutsideTags(s, close + 1 + k) == OutsideTags(s, close + 1) + OutsideTags(s[close + 1..], k)
  {
    if k > 0 {
      OutsideRest(s, close, k - 1);
      TagAfterClose(s, close, k - 1);
      assert s[close + 1..][k - 1] == s[close + k];
    }
  }

  lemma OutsideMatch(s: string, open: nat, close: nat)
    requires open < close < |s| && s[open] == '<' && s[close] == '>'
    requires forall i :: 0 <= i < open ==> s[i] != '<'
    requires forall i :: open <= i < close ==> s[i] != '>'
    ensures OutsideTags(s, close + 1) == s[..open]
  {
    OutsidePrefix(s, open);
    forall k | open <= k < close + 1 ensures InTag(s, k) {
      assert Opens(s, open, k);
      assert s[close] == '>';
    }
    OutsideGap(s, open, close + 1);
  }

  lemma OutsideAll(s: string)
    requires FirstFrom(s, '>', FirstFrom(s, '<', 0)) == |s|
    ensures OutsideTags(s, |s|) == s
  {
    assert forall k :: 0 <= k < |s| ==> !InTag(s, k);
    OutsidePrefix(s, |s|);
  }

  /** Stripping keeps exactly the positions outside of tags, in order. */
  lemma {:induction false} StripIsOutsideTags(s: string)
    ensures Strip(s) == OutsideTags(s, |s|)
    decreases |s|
  {
    var open := FirstFrom(s, '<', 0);
    var close := FirstFrom(s, '>', open);
    if close == |s| {
      OutsideAll(s);
    } else {
      StripIsOutsideTags(s[close + 1..]);
      OutsideJoin(s, open, close);
    }
  }

  lemma OutsideJoin(s: string, open: nat, close: nat)
    requires open < close < |s| && s[open] == '<' && s[close] == '>'
    requires forall i :: 0 <= i < open ==> s[i] != '<'
    requires forall i :: open <= i < close ==> s[i] != '>'
    ensures OutsideTags(s, |s|) == s[..open] + OutsideTags(s[close + 1..], |s[close + 1..]|)
  {
    OutsideMatch(s, open, close);
    OutsideRest(s, close, |s| - close - 1);
  }

  // ---------------------------------------------------------------------------------------------

  /** No '<' has a later '>'. */
  ghost predicate TagFree(s: string) {
    forall i, j :: 0 <= i < j < |s| && s[i] == '<' ==> s[j] != '>'
  }

  lemma {:induction false} StripIsTagFree(s: string)
    ensures TagFree(Strip(s))
    decreases |s|
  {
    var open := FirstFrom(s, '<', 0);
    var close := FirstFrom(s, '>', open);
    if open < |s| && close < |s| {
      var rest := Strip(s[close + 1..]);
      StripIsTagFree(s[close + 1..]);
      forall i, j | 0 <= i < j < |Strip(s)| && Strip(s)[i] == '<' ensures Strip(s)[j] != '>' {
        assert i >= open && rest[i - open] == '<';
      }
    }
  }

  /** What stripping promises: no tag is left, and a text is unchanged exactly when it had none. */
  lemma StripFixpoint(s: string)
    ensures TagFree(Strip(s))
    ensures Strip(s) == s <==> TagFree(s)
    ensures Strip(Strip(s)) == Strip(s)
  {
    StripIsTagFree(s);
  }
}
