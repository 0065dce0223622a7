/**
 ASCII models of the string operations the source relies on: `to_lowercase`, `trim`,
 `contains`, `starts_with` (written `<=` in Dafny) and `ends_with`.
 */
module Text {

  function LowerChar(c: char): char {
    if 'A' <= c <= 'Z' then (c as int + 32) as char else c
  }

  function UpperChar(c: char): char {
    if 'a' <= c <= 'z' then (c as int - 32) as char else c
  }

  function Lower(s: string): (r: string)
    ensures |r| == |s|
  {
    seq(|s|, i requires 0 <= i < |s| => LowerChar(s[i]))
  }

  function Upper(s: string): (r: string)
    ensures |r| == |s|
  {
    seq(|s|, i requires 0 <= i < |s| => UpperChar(s[i]))
  }

  predicate IsSpace(c: char) {
    9 <= c as int <= 13 || c == ' '
  }

  function TrimStart(s: string): string {
    if s != "" && IsSpace(s[0]) then TrimStart(s[1..]) else s
  }

  function TrimEnd(s: string): string {
    if s != "" && IsSpace(s[|s| - 1]) then TrimEnd(s[..|s| - 1]) else s
  }

  function Trim(s: string): string {
    TrimEnd(TrimStart(s))
  }

  /** The spelling under which MAC addresses are compared: trimmed and in lower case. */
  function Norm(s: string): string {
    Lower(Trim(s))
  }

  predicate Contains(s: string, t: string) {
    t <= s || (s != "" && Contains(s[1..], t))
  }

  predicate EndsWith(s: string, t: string) {
    |t| <= |s| && s[|s| - |t|..] == t
  }

  /** Removes every character of `drop` (Rust's `replace([..], "")`). */
  function Without(s: string, drop: set<char>): string {
    if s == "" then ""
    else if s[0] in drop then Without(s[1..], drop)
    else [s[0]] + Without(s[1..], drop)
  }

  function Replaced(s: string, from: char, to: char): (r: string)
    ensures |r| == |s|
  {
    seq(|s|, i requires 0 <= i < |s| => if s[i] == from then to else s[i])
  }

  predicate Trimmed(s: string) {
    s != "" ==> !IsSpace(s[0]) && !IsSpace(s[|s| - 1])
  }

  lemma {:induction false} TrimStartStarts(s: string)
    ensures TrimStart(s) != "" ==> !IsSpace(TrimStart(s)[0])
  {
    if s != "" && IsSpace(s[0]) {
      TrimStartStarts(s[1..]);
    }
  }

  lemma {:induction false} TrimEndEnds(s: string)
    requires s != "" ==> !IsSpace(s[0])
    ensures Trimmed(TrimEnd(s))
  {
    if s != "" && IsSpace(s[|s| - 1]) {
      TrimEndEnds(s[..|s| - 1]);
    }
  }

  /** Normalising a normalised spelling changes nothing, and neither does lowering it. */
  lemma NormIsStable(s: string)
    ensures Norm(Norm(s)) == Norm(s)
    ensures Lower(Norm(s)) == Norm(s)
  {
    TrimStartStarts(s);
    TrimEndEnds(TrimStart(s));
    assert Trimmed(Trim(s));
    assert Trimmed(Norm(s));
    assert Trim(Norm(s)) == Norm(s);
    assert forall c: char :: LowerChar(LowerChar(c)) == LowerChar(c);
    assert Lower(Lower(Trim(s))) == Lower(Trim(s));
  }

  /** Replacing one dropped character by another makes no difference to what is left. */
  lemma {:induction false} WithoutReplaced(s: string, from: char, to: char, drop: set<char>)
    requires from in drop && to in drop
    ensures Without(Replaced(s, from, to), drop) == Without(s, drop)
  {
    if s != "" {
      WithoutReplaced(s[1..], from, to, drop);
      assert Replaced(s, from, to)[1..] == Replaced(s[1..], from, to);
    }
  }

  lemma {:induction false} TrimStartReplaced(s: string)
    ensures TrimStart(Replaced(s, ':', '-')) == Replaced(TrimStart(s), ':', '-')
  {
    if s != "" && IsSpace(s[0]) {
      TrimStartReplaced(s[1..]);
      assert Replaced(s, ':', '-')[1..] == Replaced(s[1..], ':', '-');
    }
  }

  lemma {:induction false} TrimEndReplaced(s: string)
    ensures TrimEnd(Replaced(s, ':', '-')) == Replaced(TrimEnd(s), ':', '-')
  {
    if s != "" && IsSpace(s[|s| - 1]) {
      var n := |s| - 1;
      TrimEndReplaced(s[..n]);
      assert Replaced(s, ':', '-')[..n] == Replaced(s[..n], ':', '-');
    }
  }

  /** Writing a MAC with dashes for colons does the same to its normal spelling. */
  lemma NormReplaced(s: string)
    ensures Norm(Replaced(s, ':', '-')) == Replaced(Norm(s), ':', '-')
  {
    TrimStartReplaced(s);
    TrimEndReplaced(TrimStart(s));
    assert Lower(Replaced(Trim(s), ':', '-')) == Replaced(Lower(Trim(s)), ':', '-');
  }

  /** Strings are compared character by character; a prefix comes first. */
  predicate NotAfter(s: string, t: string) {
    s == "" || (t != "" && (s[0] < t[0] || (s[0] == t[0] && NotAfter(s[1..], t[1..]))))
  }

  lemma {:induction false} NotAfterIsTotal(s: string, t: string)
    ensures NotAfter(s, t) || NotAfter(t, s)
  {
    if s != "" && t != "" {
      NotAfterIsTotal(s[1..], t[1..]);
    }
  }

  lemma {:induction false} NotAfterIsTransitive(s: string, t: string, u: string)
    requires NotAfter(s, t) && NotAfter(t, u)
    ensures NotAfter(s, u)
  {
    if s != "" && s[0] == t[0] && t[0] == u[0] {
      NotAfterIsTransitive(s[1..], t[1..], u[1..]);
    }
  }

  // ---- What these operations mean

  /** `t` occurs somewhere in `s`. */
  ghost predicate Within(t: string, s: string) {
    exists i :: 0 <= i <= |s| && t <= s[i..]
  }

  lemma {:induction false} ContainsAt(s: string, t: string)
    ensures Contains(s, t) <==> Within(t, s)
  {
    if t <= s {
      assert s[0..] == s;
    } else if s != "" {
      ContainsAt(s[1..], t);
      if i :| 0 <= i <= |s| && t <= s[i..] {
        assert s[1..][i - 1..] == s[i..];
      }
      if i :| 0 <= i <= |s[1..]| && t <= s[1..][i..] {
        assert s[i + 1..] == s[1..][i..];
      }
    }
  }

  lemma {:induction false} TrimStartCuts(s: string) returns (n: nat)
    ensures n <= |s| && TrimStart(s) == s[n..] && forall i :: 0 <= i < n ==> IsSpace(s[i])
  {
    if s != "" && IsSpace(s[0]) {
      n := TrimStartCuts(s[1..]);
      n := n + 1;
    } else {
      n := 0;
    }
  }

  lemma {:induction false} TrimEndCuts(s: string) returns (n: nat)
    ensures n <= |s| && TrimEnd(s) == s[..n] && forall i :: n <= i < |s| ==> IsSpace(s[i])
  {
    if s != "" && IsSpace(s[|s| - 1]) {
      n := TrimEndCuts(s[..|s| - 1]);
    } else {
      n := |s|;
    }
  }

  const WHITE: set<char> := {' ', '\t', '\n', '\r', '\U{0B}', '\U{0C}'}

  lemma CaseIsTold(s: string, i: nat)
    requires i < |s|
    ensures Upper(s)[i] == if 'a' <= s[i] <= 'z' then 'A' + (s[i] - 'a') else s[i]
    ensures Lower(s)[i] == if 'A' <= s[i] <= 'Z' then 'a' + (s[i] - 'A') else s[i]
    ensures Upper(Lower(s)) == Upper(s) && Lower(Upper(s)) == Lower(s)
  {
  }

  /** The normal spelling is the text between the outer white space, in lower case. */
  lemma NormIsTheLowerMiddle(s: string) returns (from: nat, to: nat)
    ensures from <= to <= |s| && |Norm(s)| == to - from
    ensures forall i :: 0 <= i < |s| && !(from <= i < to) ==> s[i] in WHITE
    ensures from < to ==> s[from] !in WHITE && s[to - 1] !in WHITE
    ensures forall i :: from <= i < to ==>
      Norm(s)[i - from] == if 'A' <= s[i] <= 'Z' then 'a' + (s[i] - 'A') else s[i]
  {
    from := TrimStartCuts(s);
    to := TrimEndCuts(s[from..]);
    to := to + from;
    TrimStartStarts(s);
    TrimEndEnds(TrimStart(s));
  }

  /** Characters are removed one by one, wherever they stand. */
  lemma {:induction false} WithoutEach(s: string, t: string, c: char, drop: set<char>)
    ensures Without("", drop) == "" && Without([c], drop) == if c in drop then "" else [c]
    ensures Without(s + t, drop) == Without(s, drop) + Without(t, drop)
  {
    assert Without([c], drop) == if c in drop then Without([c][1..], drop) else [c] + Without([c][1..], drop);
    if s == "" {
      assert s + t == t;
    } else {
      WithoutEach(s[1..], t, c, drop);
      assert (s + t)[1..] == s[1..] + t;
    }
  }

  /** One string comes before another if it is a prefix, or smaller where they first differ. */
  lemma {:induction false} NotAfterMeans(s: string, t: string)
    ensures NotAfter(s, t) <==> s <= t || exists n :: DifferAt(s, t, n) && s[n] < t[n]
  {
    if s != "" && t != "" && s[0] == t[0] {
      NotAfterMeans(s[1..], t[1..]);
      assert s <= t <==> s[1..] <= t[1..];
      forall n: nat ensures DifferAt(s, t, n + 1) <==> DifferAt(s[1..], t[1..], n) {
        if n < |s| - 1 && n < |t| - 1 {
          assert s[..n + 1] == [s[0]] + s[1..][..n] && t[..n + 1] == [t[0]] + t[1..][..n];
        }
      }
      if n :| DifferAt(s, t, n) && s[n] < t[n] {
        assert DifferAt(s, t, (n - 1) + 1);
      }
      if n :| DifferAt(s[1..], t[1..], n) && s[1..][n] < t[1..][n] {
        assert DifferAt(s, t, n + 1);
      }
    } else if s != "" && t != "" {
      assert s[0] < t[0] ==> DifferAt(s, t, 0);
    }
  }

  /** The first position at which the strings differ. */
  predicate DifferAt(s: string, t: string, n: int) {
    0 <= n < |s| && n < |t| && s[..n] == t[..n] && s[n] != t[n]
  }
}
