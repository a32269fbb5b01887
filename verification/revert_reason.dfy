/**
  `cutString` of the mint page: turns a contract-call error message into the
  short text shown to the user. When the message carries a revert reason in
  the library's format

      The contract function "<name>" reverted with the following reason:
      <reason>

  the reason line is shown; otherwise the message up to its first '.'.

  The regular expression is modelled by a direct search over start positions,
  and proved equal to a declarative statement of what a match is.
*/
module RevertReason {
  import opened Wrappers
  import opened PyStr

  const Head: string := "The contract function \""
  const Tail: string := "\" reverted with the following reason:\n"

  /** The characters a JavaScript `.` does not match. */
  predicate IsLineTerminator(c: char) {
    c == '\n' || c == '\r' || c == '\U{2028}' || c == '\U{2029}'
  }

  /**
    A match of the revert-reason pattern starting at `i` whose capture group
    is `s[e..k]`: the head, a non-empty function name without '"', the tail
    (which starts with the closing '"'), then a capture with no line
    terminator, ended by a '\n' at `k`.
  */
  ghost predicate RegexMatch(s: string, i: nat, e: nat, k: nat) {
    && i + |Head| < e - |Tail|
    && e <= k < |s|
    && s[i..i + |Head|] == Head
    && (forall t :: i + |Head| <= t < e - |Tail| ==> s[t] != '"')
    && s[e - |Tail|..e] == Tail
    && (forall t :: e <= t < k ==> !IsLineTerminator(s[t]))
    && s[k] == '\n'
  }

  /** The first index at or after `j` holding `c`, or `|s|`. */
  function FirstFrom(s: string, c: char, j: nat): (r: nat)
    requires j <= |s|
    ensures j <= r <= |s|
    ensures r < |s| ==> s[r] == c
    ensures forall t :: j <= t < r ==> s[t] != c
    decreases |s| - j
  {
    if j == |s| || s[j] == c then j else FirstFrom(s, c, j + 1)
  }

  /** The first index at or after `j` holding a line terminator, or `|s|`. */
  function FirstTerminatorFrom(s: string, j: nat): (r: nat)
    requires j <= |s|
    ensures j <= r <= |s|
    ensures r < |s| ==> IsLineTerminator(s[r])
    ensures forall t :: j <= t < r ==> !IsLineTerminator(s[t])
    decreases |s| - j
  {
    if j == |s| || IsLineTerminator(s[j]) then j else FirstTerminatorFrom(s, j + 1)
  }

  /**
    The attempt to match at `i`. `[^"]+` can only end at the first '"' after
    the head, and the lazy `(.*?)` can only end at the first line terminator,
    which must be a '\n'; the result is the capture's bounds.
  */
  function MatchAt(s: string, i: nat): (r: Option<(nat, nat)>)
    requires i <= |s|
    ensures r.Some? ==> i + |Head| + |Tail| <= r.value.0 <= r.value.1 < |s| && s[r.value.1] == '\n'
  {
    var j := i + |Head|;
    if j > |s| || s[i..j] != Head then None
    else
      var q := FirstFrom(s, '"', j);
      if q == j || q + |Tail| > |s| || s[q..q + |Tail|] != Tail then None
      else
        var e := q + |Tail|;
        var k := FirstTerminatorFrom(s, e);
        if k < |s| && s[k] == '\n' then Some((e, k)) else None
  }

  /** The attempt at `i` succeeds with capture `s[e..k]` exactly when the pattern matches there with that capture. */
  lemma MatchAtSound(s: string, i: nat)
    requires i <= |s| && MatchAt(s, i).Some?
    ensures RegexMatch(s, i, MatchAt(s, i).value.0, MatchAt(s, i).value.1)
  {
    var e := MatchAt(s, i).value.0;
    var q := FirstFrom(s, '"', i + |Head|);
    assert e - |Tail| == q;
  }

  /** A match at `i` is the one the attempt at `i` finds, so it is also unique. */
  lemma MatchAtComplete(s: string, i: nat, e: nat, k: nat)
    requires i <= |s| && RegexMatch(s, i, e, k)
    ensures MatchAt(s, i) == Some((e, k))
  {
    var j := i + |Head|;
    var q := e - |Tail|;
    assert s[q] == s[q..e][0] == Tail[0] == '"';
    var q' := FirstFrom(s, '"', j);
    assert q' == q;
    assert s[q..q + |Tail|] == Tail;
    var k' := FirstTerminatorFrom(s, e);
    assert IsLineTerminator(s[k]);
    assert k' == k;
  }

  /** The leftmost match at or after `i`: its start and its capture's bounds. */
  function Search(s: string, i: nat): (r: Option<(nat, nat, nat)>)
    requires i <= |s|
    ensures r.Some? ==> i <= r.value.0 <= |s| && MatchAt(s, r.value.0) == Some((r.value.1, r.value.2))
    ensures r.None? ==> NoneFrom(s, i, |s| + 1)
    decreases |s| - i
  {
    match MatchAt(s, i)
    case Some((e, k)) => Some((i, e, k))
    case None => if i == |s| then None else Search(s, i + 1)
  }

  /** No match starts at `i` when the attempt there fails. */
  lemma NoMatchAt(s: string, i: nat, e: nat, k: nat)
    requires i <= |s| && MatchAt(s, i).None?
    ensures !RegexMatch(s, i, e, k)
  {
    if RegexMatch(s, i, e, k) {
      MatchAtComplete(s, i, e, k);
    }
  }

  /** What `Search` finds is a match at or after `i`. */
  lemma SearchFoundMatch(s: string, i: nat)
    requires i <= |s| && Search(s, i).Some?
    ensures i <= Search(s, i).value.0 <= |s|
    ensures RegexMatch(s, Search(s, i).value.0, Search(s, i).value.1, Search(s, i).value.2)
  {
    MatchAtSound(s, Search(s, i).value.0);
  }

  /** Every attempt at a position from `i` up to `stop`, within the message, fails. */
  ghost predicate NoneFrom(s: string, i: nat, stop: nat) {
    forall j :: i <= j < stop && j <= |s| ==> MatchAt(s, j).None?
  }

  /** Where `Search` stops: the start of what it finds, or past the end when it finds nothing. */
  function SearchStop(s: string, i: nat): nat
    requires i <= |s|
  {
    if Search(s, i).Some? then Search(s, i).value.0 else |s| + 1
  }

  lemma NoneFromExtend(s: string, i: nat, stop: nat)
    requires i < |s| && MatchAt(s, i).None? && NoneFrom(s, i + 1, stop)
    ensures NoneFrom(s, i, stop)
  {
    forall j | i <= j < stop && j <= |s|
      ensures MatchAt(s, j).None?
    {
      if j != i {
        assert i + 1 <= j;
      }
    }
  }

  /** Every attempt that `Search` passes over fails. */
  lemma {:induction false} SearchSkips(s: string, i: nat)
    requires i <= |s|
    ensures NoneFrom(s, i, SearchStop(s, i))
    decreases |s| - i
  {
    if MatchAt(s, i).Some? {
      SearchStopsHere(s, i);
    } else if i == |s| {
      SearchStopsAtEnd(s, i);
    } else {
      SearchMovesOn(s, i);
      SearchSkips(s, i + 1);
      NoneFromExtend(s, i, SearchStop(s, i));
    }
  }

  lemma SearchStopsHere(s: string, i: nat)
    requires i <= |s| && MatchAt(s, i).Some?
    ensures SearchStop(s, i) == i && NoneFrom(s, i, i)
  {
  }

  lemma SearchStopsAtEnd(s: string, i: nat)
    requires i == |s| && MatchAt(s, i).None?
    ensures SearchStop(s, i) == i + 1 && NoneFrom(s, i, i + 1)
  {
  }

  lemma SearchMovesOn(s: string, i: nat)
    requires i < |s| && MatchAt(s, i).None?
    ensures SearchStop(s, i) == SearchStop(s, i + 1)
  {
    assert Search(s, i) == Search(s, i + 1);
  }

  /** No match starts between `i` and what `Search` finds. */
  lemma SearchFoundFirst(s: string, i: nat)
    requires i <= |s| && Search(s, i).Some?
    ensures forall m': nat, e': nat, k': nat :: i <= m' < Search(s, i).value.0 ==> !RegexMatch(s, m', e', k')
  {
    SearchSkips(s, i);
    assert NoneFrom(s, i, Search(s, i).value.0);
    forall m': nat, e': nat, k': nat | i <= m' < Search(s, i).value.0
      ensures !RegexMatch(s, m', e', k')
    {
      NoMatchAt(s, m', e', k');
    }
  }

  /** `Search` finds nothing only when no match starts at or after `i`. */
  lemma SearchNone(s: string, i: nat)
    requires i <= |s| && Search(s, i).None?
    ensures forall m': nat, e': nat, k': nat :: i <= m' ==> !RegexMatch(s, m', e', k')
  {
    SearchSkips(s, i);
    assert NoneFrom(s, i, |s| + 1);
    forall m': nat, e': nat, k': nat | i <= m'
      ensures !RegexMatch(s, m', e', k')
    {
      if m' <= |s| {
        NoMatchAt(s, m', e', k');
      } else {
        assert !(m' + |Head| < |s|);
      }
    }
  }

  /** `Search` finds the leftmost match at or after `i`, and finds nothing only when there is none. */
  lemma SearchLeftmost(s: string, i: nat)
    requires i <= |s|
    ensures Search(s, i).Some? ==>
      var (m, e, k) := Search(s, i).value;
      && i <= m <= |s|
      && RegexMatch(s, m, e, k)
      && forall m': nat, e': nat, k': nat :: i <= m' < m ==> !RegexMatch(s, m', e', k')
    ensures Search(s, i).None? ==> forall m': nat, e': nat, k': nat :: i <= m' ==> !RegexMatch(s, m', e', k')
  {
    if Search(s, i).Some? {
      SearchFoundMatch(s, i);
      SearchFoundFirst(s, i);
    } else {
      SearchNone(s, i);
    }
  }

  /** The shown text as bounds into the message: the reason line, or the text before the first '.'. */
  function CutBounds(s: string): (b: (nat, nat))
    ensures b.0 <= b.1 <= |s|
  {
    SearchLeftmost(s, 0);
    match Search(s, 0)
    case Some((_, e, k)) =>
      if e < k then (e, k) else (0, IndexOf(s, '.'))
    case None => (0, IndexOf(s, '.'))
  }

  /** `cutString`: the text shown for an error message, always a contiguous part of it. */
  function CutString(s: string): (r: string)
    ensures exists a, b :: 0 <= a <= b <= |s| && r == s[a..b]
  {
    var (a, b) := CutBounds(s);
    s[a..b]
  }

  /** The match JavaScript reports: the one with the smallest start. */
  ghost predicate LeftmostMatch(s: string, m: nat, e: nat, k: nat) {
    RegexMatch(s, m, e, k) && forall m': nat, e': nat, k': nat :: m' < m ==> !RegexMatch(s, m', e', k')
  }

  /**
    When the leftmost match of the pattern captures a non-empty reason, that
    reason is the result; it lies on one line of the message.
  */
  lemma CutStringReason(s: string, m: nat, e: nat, k: nat)
    requires LeftmostMatch(s, m, e, k) && e < k
    ensures CutString(s) == s[e..k]
    ensures forall c :: c in CutString(s) ==> !IsLineTerminator(c)
  {
    SearchLeftmost(s, 0);
    MatchAtComplete(s, m, e, k);
    assert Search(s, 0).Some?;
    var (m1, e1, k1) := Search(s, 0).value;
    assert m1 == m by {
      assert !(m1 < m);
      assert !(m < m1);
    }
    MatchAtComplete(s, m1, e1, k1);
    assert CutBounds(s) == (e, k);
  }

  /**
    Without a match, or when the leftmost match captures an empty reason, the
    result is the message up to its first '.', or the whole message when it has
    no '.'.
  */
  lemma CutStringFallback(s: string)
    requires forall m: nat, e: nat, k: nat :: LeftmostMatch(s, m, e, k) ==> e == k
    ensures CutString(s) == s[..IndexOf(s, '.')]
    ensures '.' in s ==> CutString(s) + "." <= s
    ensures '.' !in s ==> CutString(s) == s
    ensures '.' !in CutString(s)
  {
    SearchLeftmost(s, 0);
    if Search(s, 0).Some? {
      var (m, e, k) := Search(s, 0).value;
      assert LeftmostMatch(s, m, e, k);
    }
    assert CutBounds(s) == (0, IndexOf(s, '.'));
  }

  /** An error message in the library's revert format, followed by whatever the library adds after the reason. */
  function RevertMessage(name: string, reason: string, rest: string): string {
    Head + name + Tail + reason + "\n" + rest
  }

  /** The head, the function name and the tail of a revert message are where the pattern expects them. */
  lemma RevertMessagePrefix(name: string, reason: string, rest: string)
    requires '"' !in name
    ensures var s, e := RevertMessage(name, reason, rest), |Head| + |name| + |Tail|;
      && e <= |s|
      && s[0..|Head|] == Head
      && (forall t :: |Head| <= t < e - |Tail| ==> s[t] != '"')
      && s[e - |Tail|..e] == Tail
  {
    var s := RevertMessage(name, reason, rest);
    var e := |Head| + |name| + |Tail|;
    forall t | 0 <= t < |Head|
      ensures s[t] == Head[t]
    {
    }
    assert s[0..|Head|] == Head;
    forall t | |Head| <= t < e - |Tail|
      ensures s[t] != '"'
    {
      assert s[t] == name[t - |Head|];
    }
    forall t | e - |Tail| <= t < e
      ensures s[t] == Tail[t - (e - |Tail|)]
    {
    }
    assert s[e - |Tail|..e] == Tail;
  }

  /** The reason of a revert message runs from the end of the tail to the first '\n'. */
  lemma RevertMessageReason(name: string, reason: string, rest: string)
    requires forall c :: c in reason ==> !IsLineTerminator(c)
    ensures var s, e := RevertMessage(name, reason, rest), |Head| + |name| + |Tail|;
      && e + |reason| < |s|
      && (forall t :: e <= t < e + |reason| ==> !IsLineTerminator(s[t]))
      && s[e + |reason|] == '\n'
      && s[e..e + |reason|] == reason
  {
    var s := RevertMessage(name, reason, rest);
    var e := |Head| + |name| + |Tail|;
    forall t | e <= t < e + |reason|
      ensures s[t] == reason[t - e]
    {
    }
    assert s[e..e + |reason|] == reason;
  }

  /**
    For every message in the library's revert format with a non-empty reason,
    the shown text is exactly the reason.
  */
  lemma CutStringRevert(name: string, reason: string, rest: string)
    requires |name| > 0 && '"' !in name
    requires |reason| > 0 && forall c :: c in reason ==> !IsLineTerminator(c)
    ensures CutString(RevertMessage(name, reason, rest)) == reason
  {
    var s := RevertMessage(name, reason, rest);
    var e := |Head| + |name| + |Tail|;
    var k := e + |reason|;
    RevertMessagePrefix(name, reason, rest);
    RevertMessageReason(name, reason, rest);
    assert RegexMatch(s, 0, e, k);
    assert LeftmostMatch(s, 0, e, k);
    CutStringReason(s, 0, e, k);
  }

  /** A revert of `mint` with reason "Max per wallet" shows just the reason. */
  lemma CutStringExample()
    ensures CutString(RevertMessage("mint", "Max per wallet", "Version: 1.0")) == "Max per wallet"
  {
    CutStringRevert("mint", "Max per wallet", "Version: 1.0");
  }
}
