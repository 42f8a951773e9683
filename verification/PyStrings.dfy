/** The string operations of Python that check-style-clang-format.py uses on a line. */
module PyStrings {

  /** The characters that str.strip() removes. */
  predicate IsSpace(c: char) {
    var n := c as int;
    || 0x09 <= n <= 0x0D || 0x1C <= n <= 0x20 || n == 0x85 || n == 0xA0 || n == 0x1680
    || 0x2000 <= n <= 0x200A || n == 0x2028 || n == 0x2029 || n == 0x202F || n == 0x205F || n == 0x3000
  }

  function LstripBy(s: string, p: char -> bool): string {
    if s == "" then "" else if p(s[0]) then LstripBy(s[1..], p) else s
  }

  function RstripBy(s: string, p: char -> bool): string {
    if s == "" then "" else if p(s[|s| - 1]) then RstripBy(s[..|s| - 1], p) else s
  }

  function StripBy(s: string, p: char -> bool): string { RstripBy(LstripBy(s, p), p) }

  function Strip(s: string): string { StripBy(s, IsSpace) }

  function Rstrip(s: string): string { RstripBy(s, IsSpace) }

  function Spaces(n: nat): string { seq(n, _ => ' ') }

  const TAB_SIZE := 4

  /** str.expandtabs(TAB_SIZE) from the given column on. */
  function Expand(s: string, column: nat): string {
    if s == "" then ""
    else if s[0] == '\t' then
      var n := TAB_SIZE - column % TAB_SIZE;
      Spaces(n) + Expand(s[1..], column + n)
    else [s[0]] + Expand(s[1..], if s[0] == '\n' || s[0] == '\r' then 0 else column + 1)
  }

  function ExpandTabs(s: string): string { Expand(s, 0) }

  predicate OccursAt(s: string, sub: string, i: nat) {
    i + |sub| <= |s| && s[i..i + |sub|] == sub
  }

  predicate Contains(s: string, sub: string) {
    exists i :: 0 <= i <= |s| && OccursAt(s, sub, i)
  }

  /** str.replace: every occurrence from left to right, not overlapping. */
  function Replace(s: string, what: string, with: string): string
    requires what != ""
    decreases |s|
  {
    if s == "" then ""
    else if what <= s then with + Replace(s[|what|..], what, with)
    else [s[0]] + Replace(s[1..], what, with)
  }

  // ---------------------------------------------------------------- stripping

  ghost predicate AllOf(s: string, p: char -> bool) {
    forall i :: 0 <= i < |s| ==> p(s[i])
  }

  /** Stripping takes off what it strips and nothing else. */
  lemma {:induction false} LstripSplit(s: string, p: char -> bool) returns (a: string)
    ensures s == a + LstripBy(s, p) && AllOf(a, p)
    ensures LstripBy(s, p) != "" ==> !p(LstripBy(s, p)[0])
  {
    if s == "" || !p(s[0]) {
      a := "";
    } else {
      var rest := LstripSplit(s[1..], p);
      a := [s[0]] + rest;
    }
  }

  lemma {:induction false} RstripSplit(s: string, p: char -> bool) returns (b: string)
    ensures s == RstripBy(s, p) + b && AllOf(b, p)
    ensures RstripBy(s, p) != "" ==> !p(RstripBy(s, p)[|RstripBy(s, p)| - 1])
  {
    if s == "" || !p(s[|s| - 1]) {
      b := "";
    } else {
      var rest := RstripSplit(s[..|s| - 1], p);
      b := rest + [s[|s| - 1]];
    }
  }

  lemma StripSplit(s: string, p: char -> bool) returns (a: string, b: string)
    ensures s == a + StripBy(s, p) + b && AllOf(a, p) && AllOf(b, p)
    ensures StripBy(s, p) != "" ==> !p(StripBy(s, p)[0]) && !p(StripBy(s, p)[|StripBy(s, p)| - 1])
  {
    a := LstripSplit(s, p);
    b := RstripSplit(LstripBy(s, p), p);
    assert LstripBy(s, p) == StripBy(s, p) + b;
  }

  /** A string whose first character stays cannot be stripped past it. */
  lemma {:induction false} LstripStops(a: string, u: string, p: char -> bool)
    requires u != "" && !p(u[0])
    ensures LstripBy(a + u, p) == LstripBy(a, p) + u
  {
    if a == "" {
      assert a + u == u;
    } else {
      assert (a + u)[1..] == a[1..] + u;
      LstripStops(a[1..], u, p);
    }
  }

  lemma {:induction false} RstripStops(u: string, b: string, p: char -> bool)
    requires u != "" && !p(u[|u| - 1])
    ensures RstripBy(u + b, p) == u + RstripBy(b, p)
  {
    if b == "" {
      assert u + b == u;
    } else {
      assert (u + b)[..|u + b| - 1] == u + b[..|b| - 1];
      RstripStops(u, b[..|b| - 1], p);
    }
  }

  /** Around a core that stays, the two sides are stripped on their own. */
  lemma StripAround(a: string, u: string, b: string, p: char -> bool)
    requires u != "" && !p(u[0]) && !p(u[|u| - 1])
    ensures StripBy(a + u + b, p) == LstripBy(a, p) + u + RstripBy(b, p)
  {
    assert a + u + b == a + (u + b);
    LstripStops(a, u + b, p);
    var c := LstripBy(a, p) + u;
    assert LstripBy(a, p) + (u + b) == c + b;
    RstripStops(c, b, p);
  }

  lemma {:induction false} LstripAll(a: string, p: char -> bool)
    requires AllOf(a, p)
    ensures LstripBy(a, p) == ""
  {
    if a != "" { LstripAll(a[1..], p); }
  }

  lemma {:induction false} RstripAll(b: string, p: char -> bool)
    requires AllOf(b, p)
    ensures RstripBy(b, p) == ""
  {
    if b != "" { RstripAll(b[..|b| - 1], p); }
  }

  // ---------------------------------------------------------------- tabs

  function ColumnAfter(s: string, column: nat): nat {
    if s == "" then column
    else if s[0] == '\t' then ColumnAfter(s[1..], column + TAB_SIZE - column % TAB_SIZE)
    else ColumnAfter(s[1..], if s[0] == '\n' || s[0] == '\r' then 0 else column + 1)
  }

  lemma {:induction false} ExpandConcat(s: string, t: string, column: nat)
    ensures Expand(s + t, column) == Expand(s, column) + Expand(t, ColumnAfter(s, column))
  {
    if s == "" {
      assert s + t == t;
    } else {
      assert (s + t)[0] == s[0] && (s + t)[1..] == s[1..] + t;
      if s[0] == '\t' {
        var n := TAB_SIZE - column % TAB_SIZE;
        ExpandConcat(s[1..], t, column + n);
        assert Expand(s + t, column) == Spaces(n) + Expand(s[1..] + t, column + n);
      } else {
        var next := if s[0] == '\n' || s[0] == '\r' then 0 else column + 1;
        ExpandConcat(s[1..], t, next);
        assert Expand(s + t, column) == [s[0]] + Expand(s[1..] + t, next);
      }
    }
  }

  lemma {:induction false} ExpandHasNoTab(s: string, column: nat)
    ensures '\t' !in Expand(s, column)
    ensures forall c :: c in Expand(s, column) ==> c == ' ' || c in s
    decreases |s|
  {
    if s != "" {
      assert s == [s[0]] + s[1..];
      if s[0] == '\t' {
        ExpandHasNoTab(s[1..], column + TAB_SIZE - column % TAB_SIZE);
      } else {
        ExpandHasNoTab(s[1..], if s[0] == '\n' || s[0] == '\r' then 0 else column + 1);
      }
    }
  }

  lemma {:induction false} ExpandWithoutTab(s: string, column: nat)
    requires '\t' !in s
    ensures Expand(s, column) == s
  {
    if s != "" {
      var next := if s[0] == '\n' || s[0] == '\r' then 0 else column + 1;
      ExpandWithoutTab(s[1..], next);
      assert Expand(s, column) == [s[0]] + Expand(s[1..], next);
    }
  }

  lemma ExpandSpaces(s: string, column: nat)
    requires AllOf(s, IsSpace)
    ensures AllOf(Expand(s, column), IsSpace)
  {
    ExpandHasNoTab(s, column);
    var t := Expand(s, column);
    forall i | 0 <= i < |t| ensures IsSpace(t[i]) {
      assert t[i] in t;
    }
  }

  // ---------------------------------------------------------------- replacing

  /** Where the first character of `what` does not occur, nothing is replaced. */
  lemma {:induction false} ReplaceNothing(s: string, what: string, with: string)
    requires what != "" && what[0] !in s
    ensures Replace(s, what, with) == s
  {
    if s != "" { ReplaceNothing(s[1..], what, with); }
  }

  lemma {:induction false} ReplaceOnce(a: string, what: string, b: string, with: string)
    requires what != "" && what[0] !in a && what[0] !in b
    ensures Replace(a + what + b, what, with) == a + with + b
    decreases |a|
  {
    var s := a + what + b;
    if a == "" {
      assert s[|what|..] == b;
      ReplaceNothing(b, what, with);
    } else {
      assert s[0] == a[0] && s[1..] == a[1..] + what + b;
      ReplaceOnce(a[1..], what, b, with);
      assert [a[0]] + (a[1..] + with + b) == a + with + b;
    }
  }
}
