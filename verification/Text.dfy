/** The string operations of the modelled code, for ASCII text. */
module Text {

  predicate IsSpace(c: char) {
    c == ' ' || c == '\t' || c == '\n' || c == '\r'
  }

  function TrimLeft(s: string): (t: string)
    ensures |t| <= |s|
    ensures t != [] ==> !IsSpace(t[0])
  {
    if s != [] && IsSpace(s[0]) then TrimLeft(s[1..]) else s
  }

  function TrimRight(s: string): (t: string)
    ensures t <= s
    ensures t != [] ==> !IsSpace(t[|t| - 1])
  {
    if s != [] && IsSpace(s[|s| - 1]) then TrimRight(s[..|s| - 1]) else s
  }

  function Strip(s: string): (t: string)
    ensures |t| <= |s|
    ensures t != [] ==> !IsSpace(t[0]) && !IsSpace(t[|t| - 1])
  {
    TrimRight(TrimLeft(s))
  }

  function LowerChar(c: char): char {
    if 'A' <= c <= 'Z' then c - 'A' + 'a' else c
  }

  function Lower(s: string): (t: string)
    ensures |t| == |s|
  {
    seq(|s|, i requires 0 <= i < |s| => LowerChar(s[i]))
  }

  /** The part before the first c: the first piece of a split. */
  function UpTo(s: string, c: char): (t: string)
    ensures t <= s && c !in t
  {
    if s == "" || s[0] == c then "" else [s[0]] + UpTo(s[1..], c)
  }

  function DropPrefix(s: string, prefix: string): string {
    if prefix <= s then s[|prefix|..] else s
  }

  lemma {:induction false} UpToOfMissing(s: string, c: char)
    requires c !in s
    ensures UpTo(s, c) == s
  {
    if s != "" {
      assert s[0] in s;
      forall d | d in s[1..] ensures d in s {
      }
      UpToOfMissing(s[1..], c);
    }
  }

  lemma StripOfTight(s: string)
    requires s == "" || (!IsSpace(s[0]) && !IsSpace(s[|s| - 1]))
    ensures Strip(s) == s
  {
  }

  lemma LowerOfLower(s: string)
    requires forall c | c in s :: !('A' <= c <= 'Z')
    ensures Lower(s) == s
  {
    assert forall i | 0 <= i < |s| :: s[i] in s;
  }

  lemma StripOfBlank(s: string)
    ensures Strip(" " + s) == Strip(s)
  {
    assert (" " + s)[1..] == s;
  }

  lemma {:induction false} UpToStopsAt(s: string, c: char)
    requires |UpTo(s, c)| < |s|
    ensures s[|UpTo(s, c)|] == c
  {
    if s[0] != c { UpToStopsAt(s[1..], c); }
  }

  // ---- What the operations mean ----

  lemma {:induction false} TrimLeftExactly(left: string, rest: string)
    requires forall c | c in left :: c in {' ', '\t', '\n', '\r'}
    requires rest != "" ==> rest[0] !in {' ', '\t', '\n', '\r'}
    ensures TrimLeft(left + rest) == rest
  {
    if left != "" {
      assert left[0] in left && forall c | c in left[1..] :: c in left;
      TrimLeftExactly(left[1..], rest);
      assert (left + rest)[1..] == left[1..] + rest;
    } else {
      assert left + rest == rest;
    }
  }

  lemma {:induction false} TrimRightExactly(rest: string, right: string)
    requires forall c | c in right :: c in {' ', '\t', '\n', '\r'}
    requires rest != "" ==> rest[|rest| - 1] !in {' ', '\t', '\n', '\r'}
    ensures TrimRight(rest + right) == rest
  {
    if right != "" {
      var n := |right| - 1;
      assert right[n] in right && forall c | c in right[..n] :: c in right;
      TrimRightExactly(rest, right[..n]);
      assert (rest + right)[..|rest| + n] == rest + right[..n];
    } else {
      assert rest + right == rest;
    }
  }

  /** Strip removes the blanks around a core that neither starts nor ends with one. */
  lemma StripExactly(left: string, core: string, right: string)
    requires forall c | c in left || c in right :: c in {' ', '\t', '\n', '\r'}
    requires core != "" ==>
               core[0] !in {' ', '\t', '\n', '\r'} && core[|core| - 1] !in {' ', '\t', '\n', '\r'}
    ensures Strip(left + core + right) == core
  {
    hide TrimLeft, TrimRight;
    if core == "" {
      TrimLeftExactly(left + right, "");
      TrimRightExactly("", "");
      assert left + core + right == left + right + "";
      assert "" + "" == "";
    } else {
      TrimLeftExactly(left, core + right);
      TrimRightExactly(core, right);
      assert left + core + right == left + (core + right);
    }
  }

  /** A capital letter moves 32 code points up; every other character stays. */
  lemma LowerExactly(s: string, i: nat)
    requires i < |s|
    ensures 65 <= s[i] as int <= 90 ==> Lower(s)[i] as int == s[i] as int + 32
    ensures !(65 <= s[i] as int <= 90) ==> Lower(s)[i] == s[i]
  {
  }

  lemma {:induction false} UpToExactly(before: string, c: char, after: string)
    requires c !in before
    ensures UpTo(before + [c] + after, c) == before
  {
    if before != "" {
      assert before[0] in before;
      forall d | d in before[1..] ensures d in before {
      }
      UpToExactly(before[1..], c, after);
      assert (before + [c] + after)[1..] == before[1..] + [c] + after;
    }
  }

  lemma {:induction false} UpToSkips(before: string, after: string, c: char)
    requires c !in before
    ensures UpTo(before + after, c) == before + UpTo(after, c)
  {
    if before == "" {
      assert before + after == after;
    } else {
      assert before[0] in before && forall d | d in before[1..] :: d in before;
      UpToSkips(before[1..], after, c);
      assert (before + after)[1..] == before[1..] + after;
    }
  }

  lemma DropPrefixExactly(s: string, prefix: string)
    ensures DropPrefix(prefix + s, prefix) == s
    ensures !(prefix <= s) ==> DropPrefix(s, prefix) == s
  {
  }
}
