/**
  Glob matching for KEYS and SCAN (crates/garnet/src/commands.rs:947-1032). The
  code walks pattern and string with two cursors and remembers only the last
  star. It is proved to accept the language of the recursive matcher, and that
  to be the language of the pattern's tokens.
 */
module Glob {
  import opened Bytes

  const STAR: Byte := 42
  const ANY: Byte := 63
  const OPEN: Byte := 91
  const CLOSE: Byte := 93
  const ESCAPE: Byte := 92
  const CARET: Byte := 94
  const BANG: Byte := 33
  const DASH: Byte := 45

  // ---------------------------------------------------------------------
  // One pattern element
  // ---------------------------------------------------------------------

  predicate Negated(p: seq<Byte>, pi: nat) {
    pi + 1 < |p| && (p[pi + 1] == CARET || p[pi + 1] == BANG)
  }

  function SetStart(p: seq<Byte>, pi: nat): nat {
    if Negated(p, pi) then pi + 2 else pi + 1
  }

  /** The first closing bracket from `j` on, or the end of the pattern. */
  function SetEnd(p: seq<Byte>, j: nat): (e: nat)
    ensures j <= |p| ==> j <= e <= |p|
    ensures e < |p| ==> p[e] == CLOSE
    decreases |p| - j
  {
    if |p| <= j then j else if p[j] == CLOSE then j else SetEnd(p, j + 1)
  }

  /** Single characters and ranges, read from left to right. */
  predicate InSet(set_: seq<Byte>, c: Byte)
    decreases |set_|
  {
    if set_ == [] then false
    else if 3 <= |set_| && set_[1] == DASH then set_[0] <= c <= set_[2] || InSet(set_[3..], c)
    else set_[0] == c || InSet(set_[1..], c)
  }

  function SetOf(p: seq<Byte>, pi: nat): seq<Byte>
    requires pi < |p|
  {
    p[SetStart(p, pi)..SetEnd(p, SetStart(p, pi))]
  }

  /** Whether the element at `pi`, which is not a star, takes the character. */
  predicate Accepts(p: seq<Byte>, pi: nat, c: Byte)
    requires pi < |p|
  {
    if p[pi] == ANY then true
    else if p[pi] == OPEN then InSet(SetOf(p, pi), c) != Negated(p, pi)
    else if p[pi] == ESCAPE && pi + 1 < |p| then p[pi + 1] == c
    else p[pi] == c
  }

  /** Where the next element starts: one past the end of the pattern after a set that is not closed. */
  function After(p: seq<Byte>, pi: nat): (n: nat)
    requires pi < |p|
    ensures pi < n
  {
    if p[pi] == OPEN then SetEnd(p, SetStart(p, pi)) + 1
    else if p[pi] == ESCAPE && pi + 1 < |p| then pi + 2
    else pi + 1
  }

  /** The obvious recursive matcher. */
  predicate Matches(p: seq<Byte>, pi: nat, s: seq<Byte>, si: nat)
    requires si <= |s|
    decreases |s| - si, |p| - pi
  {
    if |p| <= pi then pi == |p| && si == |s|
    else if p[pi] == STAR then Matches(p, pi + 1, s, si) || (si < |s| && Matches(p, pi, s, si + 1))
    else si < |s| && Accepts(p, pi, s[si]) && Matches(p, After(p, pi), s, si + 1)
  }

  // ---------------------------------------------------------------------
  // The language of a pattern
  // ---------------------------------------------------------------------

  datatype Token = Star | AnyOne | Literal(byte: Byte) | Class(items: seq<Byte>, negated: bool)

  predicate Takes(t: Token, c: Byte) {
    match t
    case AnyOne => true
    case Literal(b) => b == c
    case Class(items, negated) => InSet(items, c) != negated
    case Star => false
  }

  function TokenAt(p: seq<Byte>, pi: nat): Token
    requires pi < |p|
  {
    if p[pi] == STAR then Star
    else if p[pi] == ANY then AnyOne
    else if p[pi] == OPEN then Class(SetOf(p, pi), Negated(p, pi))
    else if p[pi] == ESCAPE && pi + 1 < |p| then Literal(p[pi + 1])
    else Literal(p[pi])
  }

  /** The tokens of a pattern; a pattern with a set that is not closed has no reading. */
  function Tokens(p: seq<Byte>, pi: nat): Option<seq<Token>>
    decreases |p| - pi
  {
    if |p| <= pi then if pi == |p| then Some([]) else None
    else
      var rest := Tokens(p, After(p, pi));
      if rest.None? then None else Some([TokenAt(p, pi)] + rest.value)
  }

  /** A star stands for any string, every other token for one character. */
  ghost predicate Denotes(tokens: seq<Token>, s: seq<Byte>)
    decreases |tokens|
  {
    if tokens == [] then s == []
    else if tokens[0].Star? then exists k: nat :: k <= |s| && Denotes(tokens[1..], s[k..])
    else s != [] && Takes(tokens[0], s[0]) && Denotes(tokens[1..], s[1..])
  }

  /** Letting a star take one more character. */
  lemma StarDenotes(tokens: seq<Token>, s: seq<Byte>)
    requires tokens != [] && tokens[0].Star?
    ensures Denotes(tokens, s) <==> Denotes(tokens[1..], s) || (s != [] && Denotes(tokens, s[1..]))
  {
    assert s[0..] == s;
    if Denotes(tokens, s) && !Denotes(tokens[1..], s) {
      var k: nat :| k <= |s| && Denotes(tokens[1..], s[k..]);
      assert s[1..][k - 1..] == s[k..];
    }
    if s != [] && Denotes(tokens, s[1..]) {
      var k: nat :| k <= |s[1..]| && Denotes(tokens[1..], s[1..][k..]);
      assert s[1..][k..] == s[k + 1..];
    }
  }

  /** The recursive matcher accepts exactly what the pattern's tokens stand for. */
  lemma {:induction false} MatchesLanguage(p: seq<Byte>, pi: nat, s: seq<Byte>, si: nat)
    requires si <= |s|
    ensures Matches(p, pi, s, si) <==> Tokens(p, pi).Some? && Denotes(Tokens(p, pi).value, s[si..])
    decreases |s| - si, |p| - pi
  {
    if pi < |p| {
      var tokens := Tokens(p, pi);
      var rest := Tokens(p, After(p, pi));
      assert tokens.Some? ==> tokens.value[1..] == rest.value && tokens.value[0] == TokenAt(p, pi);
      if si < |s| {
        assert s[si..][1..] == s[si + 1..];
      }
      if p[pi] == STAR {
        MatchesLanguage(p, pi + 1, s, si);
        if si < |s| {
          MatchesLanguage(p, pi, s, si + 1);
        }
        if tokens.Some? {
          StarDenotes(tokens.value, s[si..]);
        }
      } else if si < |s| {
        MatchesLanguage(p, After(p, pi), s, si + 1);
      }
    }
  }

  // ---------------------------------------------------------------------
  // Why the last star is enough
  // ---------------------------------------------------------------------

  /** From `a`, `n` elements without a star lead to `b`. */
  predicate Plain(p: seq<Byte>, a: nat, b: nat, n: nat)
    decreases n
  {
    if n == 0 then a == b else a < |p| && p[a] != STAR && Plain(p, After(p, a), b, n - 1)
  }

  lemma {:induction false} PlainExtends(p: seq<Byte>, a: nat, b: nat, n: nat)
    requires Plain(p, a, b, n) && b < |p| && p[b] != STAR
    ensures Plain(p, a, After(p, b), n + 1)
    decreases n
  {
    if 0 < n {
      PlainExtends(p, After(p, a), b, n - 1);
    }
  }

  lemma {:induction false} PlainAdvances(p: seq<Byte>, a: nat, b: nat, n: nat)
    requires Plain(p, a, b, n)
    ensures a <= b
    decreases n
  {
    if 0 < n {
      PlainAdvances(p, After(p, a), b, n - 1);
    }
  }

  /** Elements without a star take one character each. */
  lemma {:induction false} PlainTakes(p: seq<Byte>, a: nat, b: nat, n: nat, s: seq<Byte>, x: nat)
    requires Plain(p, a, b, n) && x <= |s| && Matches(p, a, s, x)
    ensures x + n <= |s| && Matches(p, b, s, x + n)
    decreases n
  {
    if 0 < n {
      PlainTakes(p, After(p, a), b, n - 1, s, x + 1);
    }
  }

  /** A star that matches from further on matches from here. */
  lemma {:induction false} StarAbsorbs(p: seq<Byte>, pi: nat, s: seq<Byte>, x: nat, y: nat)
    requires pi < |p| && p[pi] == STAR && x <= y <= |s| && Matches(p, pi, s, y)
    ensures Matches(p, pi, s, x)
    decreases y - x
  {
    if x < y {
      StarAbsorbs(p, pi, s, x + 1, y);
    }
  }

  /** A star that matches takes some number of characters. */
  lemma {:induction false} StarTakes(p: seq<Byte>, pi: nat, s: seq<Byte>, x: nat) returns (y: nat)
    requires pi < |p| && p[pi] == STAR && x <= |s| && Matches(p, pi, s, x)
    ensures x <= y <= |s| && Matches(p, pi + 1, s, y)
    decreases |s| - x
  {
    if Matches(p, pi + 1, s, x) {
      y := x;
    } else {
      y := StarTakes(p, pi, s, x + 1);
    }
  }

  /** At a second star, the first one need never be tried again. */
  lemma FirstStarSettled(p: seq<Byte>, sp: nat, pi: nat, s: seq<Byte>, ss: nat, si: nat)
    requires sp < |p| && p[sp] == STAR && pi < |p| && p[pi] == STAR && ss <= si <= |s|
    requires Plain(p, sp + 1, pi, si - ss) && Matches(p, sp, s, ss)
    ensures Matches(p, pi, s, si)
  {
    var y := StarTakes(p, sp, s, ss);
    PlainTakes(p, sp + 1, pi, si - ss, s, y);
    StarAbsorbs(p, pi, s, si, y + (si - ss));
  }

  /** At the end of the string, the star cannot take more than it has. */
  lemma StarExhausted(p: seq<Byte>, sp: nat, pi: nat, s: seq<Byte>, ss: nat)
    requires sp < |p| && p[sp] == STAR && ss <= |s|
    requires Plain(p, sp + 1, pi, |s| - ss) && Matches(p, sp, s, ss)
    ensures Matches(p, pi, s, |s|)
  {
    var y := StarTakes(p, sp, s, ss);
    PlainTakes(p, sp + 1, pi, |s| - ss, s, y);
  }

  /** What the loop knows: the whole match hangs on the saved star, and that star's first choice on the cursors. */
  ghost predicate Tracking(p: seq<Byte>, s: seq<Byte>, pi: nat, si: nat, star: Option<(nat, nat)>) {
    && si <= |s|
    && match star
       case None => Matches(p, 0, s, 0) <==> Matches(p, pi, s, si)
       case Some((sp, ss)) =>
         && sp < |p| && p[sp] == STAR && ss <= si && Plain(p, sp + 1, pi, si - ss)
         && (Matches(p, 0, s, 0) <==> Matches(p, sp, s, ss))
         && (Matches(p, sp + 1, s, ss) <==> Matches(p, pi, s, si))
  }

  lemma SaveStar(p: seq<Byte>, s: seq<Byte>, pi: nat, si: nat, star: Option<(nat, nat)>)
    requires Tracking(p, s, pi, si, star) && pi < |p| && p[pi] == STAR
    ensures Tracking(p, s, pi + 1, si, Some((pi, si)))
    ensures star.Some? ==> star.value.0 < pi
  {
    if star.Some? {
      var (sp, ss) := star.value;
      PlainAdvances(p, sp + 1, pi, si - ss);
      if Matches(p, sp, s, ss) {
        FirstStarSettled(p, sp, pi, s, ss, si);
      }
    }
  }

  lemma TakeOne(p: seq<Byte>, s: seq<Byte>, pi: nat, si: nat, star: Option<(nat, nat)>)
    requires Tracking(p, s, pi, si, star) && pi < |p| && p[pi] != STAR && si < |s| && Accepts(p, pi, s[si])
    ensures Tracking(p, s, After(p, pi), si + 1, star)
  {
    if star.Some? {
      var (sp, ss) := star.value;
      PlainExtends(p, sp + 1, pi, si - ss);
    }
  }

  lemma Backtrack(p: seq<Byte>, s: seq<Byte>, pi: nat, si: nat, sp: nat, ss: nat)
    requires Tracking(p, s, pi, si, Some((sp, ss))) && si < |s| && !Matches(p, pi, s, si)
    ensures Tracking(p, s, sp + 1, ss + 1, Some((sp, ss + 1)))
  {
  }

  lemma AtTheEnd(p: seq<Byte>, s: seq<Byte>, pi: nat, star: Option<(nat, nat)>)
    requires Tracking(p, s, pi, |s|, star)
    ensures Matches(p, 0, s, 0) <==> Matches(p, pi, s, |s|)
  {
    if star.Some? && Matches(p, 0, s, 0) {
      StarExhausted(p, star.value.0, pi, s, star.value.1);
    }
  }

  // ---------------------------------------------------------------------
  // The code
  // ---------------------------------------------------------------------

  method FindClose(p: seq<Byte>, from: nat) returns (j: nat)
    requires from <= |p|
    ensures j == SetEnd(p, from)
  {
    j := from;
    while j < |p| && p[j] != CLOSE
      invariant from <= j <= |p| && SetEnd(p, j) == SetEnd(p, from)
    {
      j := j + 1;
    }
  }

  method SearchSet(set_: seq<Byte>, c: Byte) returns (found: bool)
    ensures found == InSet(set_, c)
  {
    var i := 0;
    while i < |set_|
      invariant i <= |set_| && InSet(set_[i..], c) == InSet(set_, c)
    {
      if i + 2 < |set_| && set_[i + 1] == DASH {
        if set_[i] <= c <= set_[i + 2] {
          return true;
        }
        assert set_[i..][3..] == set_[i + 3..];
        i := i + 3;
      } else {
        if set_[i] == c {
          return true;
        }
        assert set_[i..][1..] == set_[i + 1..];
        i := i + 1;
      }
    }
    return false;
  }

  /** One element against one character: where the pattern goes on, or None if it does not match. */
  method TryElement(p: seq<Byte>, pi: nat, c: Byte) returns (next: Option<nat>)
    requires pi < |p| && p[pi] != STAR
    ensures next == if Accepts(p, pi, c) then Some(After(p, pi)) else None
  {
    if p[pi] == ANY {
      return Some(pi + 1);
    }
    if p[pi] == OPEN {
      var start := SetStart(p, pi);
      var j := FindClose(p, start);
      var found := SearchSet(p[start..j], c);
      return if found != Negated(p, pi) then Some(j + 1) else None;
    }
    if p[pi] == ESCAPE && pi + 1 < |p| {
      return if p[pi + 1] == c then Some(pi + 2) else None;
    }
    return if p[pi] == c then Some(pi + 1) else None;
  }

  method GlobMatch(p: seq<Byte>, s: seq<Byte>) returns (matched: bool)
    ensures matched == Matches(p, 0, s, 0)
    ensures matched <==> Tokens(p, 0).Some? && Denotes(Tokens(p, 0).value, s)
  {
    MatchesLanguage(p, 0, s, 0);
    assert s[0..] == s;
    var pi: nat, si: nat := 0, 0;
    var star: Option<(nat, nat)> := None;
    while si < |s|
      invariant Tracking(p, s, pi, si, star)
      decreases if star.None? then |p| + 1 else |p| - star.value.0,
                if star.None? then 0 else |s| - star.value.1,
                |s| - si
    {
      if pi < |p| && p[pi] == STAR {
        SaveStar(p, s, pi, si, star);
        star := Some((pi, si));
        pi := pi + 1;
        continue;
      }
      if pi < |p| {
        var next := TryElement(p, pi, s[si]);
        if next.Some? {
          TakeOne(p, s, pi, si, star);
          pi, si := next.value, si + 1;
          continue;
        }
      }
      if star.None? {
        return false;
      }
      var (sp, ss) := star.value;
      Backtrack(p, s, pi, si, sp, ss);
      pi, si := sp + 1, ss + 1;
      star := Some((sp, ss + 1));
    }
    AtTheEnd(p, s, pi, star);
    while pi < |p| && p[pi] == STAR
      invariant Matches(p, 0, s, 0) <==> Matches(p, pi, s, |s|)
      decreases |p| - pi
    {
      pi := pi + 1;
    }
    return pi == |p|;
  }
}
