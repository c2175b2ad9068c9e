/**
  The pool-name rule ^[a-z][a-z0-9_.-]*$: a lower-case letter followed by any
  number of lower-case letters, digits, '_', '.' and '-'. The pattern is
  anchored at both ends, so the whole name must match.
 */
module PoolName {

  predicate IsLower(c: char)
  {
    'a' <= c <= 'z'
  }

  /** The character class [a-z0-9_.-]. */
  predicate IsNameChar(c: char)
  {
    IsLower(c) || ('0' <= c <= '9') || c == '_' || c == '.' || c == '-'
  }

  /** The declarative reading of the pattern. */
  predicate ValidPoolName(name: string)
  {
    && |name| >= 1
    && IsLower(name[0])
    && forall i :: 1 <= i < |name| ==> IsNameChar(name[i])
  }

  /** The states of the automaton the pattern compiles to: nothing read yet,
      inside an acceptable name, or past a character that can never match. */
  datatype State = Start | Accepting | Dead

  function Step(q: State, c: char): State
  {
    match q
    case Start => if IsLower(c) then Accepting else Dead
    case Accepting => if IsNameChar(c) then Accepting else Dead
    case Dead => Dead
  }

  /** Runs the automaton over s from state q. */
  function Run(q: State, s: string): State
    decreases |s|
  {
    if |s| == 0 then q else Run(Step(q, s[0]), s[1..])
  }

  /** A whole-string match of the pattern, as the matcher decides it. */
  predicate Matches(name: string)
  {
    Run(Start, name) == Accepting
  }

  /** Once a character fails, no suffix can rescue the match. */
  lemma {:induction false} RunDeadStaysDead(s: string)
    ensures Run(Dead, s) == Dead
    decreases |s|
  {
    if |s| > 0 {
      RunDeadStaysDead(s[1..]);
    }
  }

  /** From the accepting state the rest of the name is accepted exactly when
      every character is in the class. */
  lemma {:induction false} RunAccepting(s: string)
    ensures Run(Accepting, s) == Accepting <==> forall i :: 0 <= i < |s| ==> IsNameChar(s[i])
    decreases |s|
  {
    if |s| > 0 {
      RunAccepting(s[1..]);
      if IsNameChar(s[0]) {
        assert forall i :: 1 <= i < |s| ==> s[i] == s[1..][i - 1];
      } else {
        RunDeadStaysDead(s[1..]);
      }
    }
  }

  /** The automaton and the declarative rule accept the same names. */
  lemma {:induction false} MatchesIffValid(name: string)
    ensures Matches(name) <==> ValidPoolName(name)
  {
    if |name| > 0 {
      var rest := name[1..];
      if IsLower(name[0]) {
        RunAccepting(rest);
        assert forall i :: 1 <= i < |name| ==> name[i] == rest[i - 1];
      } else {
        RunDeadStaysDead(rest);
      }
    }
  }
}
