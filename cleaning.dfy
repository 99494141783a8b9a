/**
 * The cleaning chain SearchBox applies to an encyclopedia extract:
 *   extract.replace(/\([^)]*\)/g, '').replace(/\s+/g, ' ').trim()
 * and the lead-in phrase put before the result.
 */
module Cleaning {

  /** The phrase put before every cleaned extract handed to `onSearch`. */
  const Lead: string := "Did you know? "

  /**
   * JavaScript's `\s` class, which is also exactly the set of characters
   * `String.prototype.trim` removes: TAB, LF, VT, FF, CR, the space
   * separators of Unicode category Zs, LS, PS and the byte order mark.
   */
  predicate IsWs(c: char) {
    var k := c as int;
    (9 <= k <= 13) || k == 0x20 || k == 0xA0 || k == 0x1680 || (0x2000 <= k <= 0x200A)
    || k == 0x2028 || k == 0x2029 || k == 0x202F || k == 0x205F || k == 0x3000 || k == 0xFEFF
  }

  // ---------------------------------------------------------------------------
  // Shapes of a cleaned string

  /** Every whitespace character is a plain space. */
  predicate SpacesOnly(s: string) {
    forall i :: 0 <= i < |s| && IsWs(s[i]) ==> s[i] == ' '
  }

  /** No two adjacent whitespace characters. */
  predicate NoDoubleWs(s: string) {
    forall i :: 0 <= i < |s| - 1 ==> !(IsWs(s[i]) && IsWs(s[i + 1]))
  }

  /** No leading and no trailing whitespace. */
  predicate Trimmed(s: string) {
    s == [] || (!IsWs(s[0]) && !IsWs(s[|s| - 1]))
  }

  /** No `(` has a `)` anywhere after it: the regex `\([^)]*\)` finds no match. */
  predicate NoClosableOpen(s: string) {
    forall i, j :: 0 <= i < j < |s| && s[i] == '(' ==> s[j] != ')'
  }

  /** `a` is an order-preserving subsequence of `b`. */
  predicate IsSubseq(a: string, b: string)
    decreases |b|
  {
    if a == [] then true
    else if b == [] then false
    else (a[0] == b[0] && IsSubseq(a[1..], b[1..])) || IsSubseq(a, b[1..])
  }

  /** The non-whitespace characters of `s`, in order. */
  function NonWs(s: string): string {
    if s == [] then [] else (if IsWs(s[0]) then [] else [s[0]]) + NonWs(s[1..])
  }

  // ---------------------------------------------------------------------------
  // The steps of the chain

  /** `String.prototype.trimStart`: the suffix left after the leading whitespace. */
  function TrimStart(s: string): (r: string)
    ensures |r| <= |s| && r == s[|s| - |r|..]
    ensures forall i :: 0 <= i < |s| - |r| ==> IsWs(s[i])
    ensures r == [] || !IsWs(r[0])
    ensures s != [] && IsWs(s[0]) ==> |r| < |s|
  {
    if s != [] && IsWs(s[0]) then TrimStart(s[1..]) else s
  }

  /** `String.prototype.trimEnd`: the prefix left before the trailing whitespace. */
  function TrimEnd(s: string): (r: string)
    ensures |r| <= |s| && r == s[..|r|]
    ensures forall i :: |r| <= i < |s| ==> IsWs(s[i])
    ensures r == [] || !IsWs(r[|r| - 1])
  {
    if s != [] && IsWs(s[|s| - 1]) then TrimEnd(s[..|s| - 1]) else s
  }

  /** `String.prototype.trim`. */
  function Trim(s: string): (r: string)
    ensures Trimmed(r) && |r| <= |s|
  {
    var t := TrimStart(s);
    var r := TrimEnd(t);
    assert r != [] ==> r[0] == t[0];
    r
  }

  /** The first `)` of `s` and everything before it removed. */
  function AfterClose(s: string): (r: string)
    requires ')' in s
    ensures |r| < |s| && r == s[|s| - |r|..]
    ensures s[|s| - |r| - 1] == ')' && ')' !in s[..|s| - |r| - 1]
  {
    if s[0] == ')' then s[1..]
    else
      assert ')' in s[1..];
      var r := AfterClose(s[1..]);
      assert s[..|s| - |r| - 1] == [s[0]] + s[1..][..|s| - 1 - |r| - 1];
      r
  }

  /**
   * `replace(/\([^)]*\)/g, '')`: scanning left to right, an unconsumed `(`
   * followed somewhere by a `)` is removed through the first such `)`;
   * a `(` with no `)` after it is kept, like every other character.
   */
  function StripParens(s: string): (r: string)
    decreases |s|
  {
    if s == [] then []
    else if s[0] == '(' && ')' in s[1..] then StripParens(AfterClose(s[1..]))
    else [s[0]] + StripParens(s[1..])
  }

  /** `replace(/\s+/g, ' ')`: each maximal run of whitespace becomes one space. */
  function Collapse(s: string): string
    decreases |s|
  {
    if s == [] then []
    else if IsWs(s[0]) then [' '] + Collapse(TrimStart(s))
    else [s[0]] + Collapse(s[1..])
  }

  /** The whole chain of SearchBox.tsx lines 45-48. */
  function Clean(extract: string): string {
    Trim(Collapse(StripParens(extract)))
  }

  /** The string SearchBox hands to `onSearch` for a truthy extract. */
  function Announce(extract: string): string {
    Lead + Clean(extract)
  }

  // ---------------------------------------------------------------------------
  // Helper facts

  /** A contiguous piece `t` of `s`, starting at `a`, keeps the shape of `s`. */
  lemma SliceKeepsShape(s: string, a: nat, t: string)
    requires a + |t| <= |s| && t == s[a..a + |t|]
    ensures SpacesOnly(s) ==> SpacesOnly(t)
    ensures NoDoubleWs(s) ==> NoDoubleWs(t)
    ensures NoClosableOpen(s) ==> NoClosableOpen(t)
  {
    if NoDoubleWs(s) {
      forall i | 0 <= i < |t| - 1 ensures !(IsWs(t[i]) && IsWs(t[i + 1])) {
        assert t[i] == s[a + i] && t[i + 1] == s[a + i + 1];
      }
    }
    if NoClosableOpen(s) {
      forall i, j | 0 <= i < j < |t| && t[i] == '(' ensures t[j] != ')' {
        assert t[i] == s[a + i] && t[j] == s[a + j];
      }
    }
  }

  lemma {:induction false} NonWsConcat(a: string, b: string)
    ensures NonWs(a + b) == NonWs(a) + NonWs(b)
    decreases |a|
  {
    if a == [] {
      assert a + b == b;
    } else {
      var h := if IsWs(a[0]) then [] else [a[0]];
      assert (a + b)[0] == a[0] && (a + b)[1..] == a[1..] + b;
      assert NonWs(a + b) == h + NonWs(a[1..] + b);
      NonWsConcat(a[1..], b);
      assert NonWs(a) == h + NonWs(a[1..]);
      assert h + (NonWs(a[1..]) + NonWs(b)) == (h + NonWs(a[1..])) + NonWs(b);
    }
  }

  /** `NonWs` keeps exactly the non-whitespace characters. */
  lemma {:induction false} NonWsMembers(s: string)
    ensures forall c :: c in NonWs(s) <==> c in s && !IsWs(c)
  {
    if s != [] {
      NonWsMembers(s[1..]);
      assert s == [s[0]] + s[1..];
    }
  }

  lemma {:induction false} TrimStartKeepsNonWs(s: string)
    ensures NonWs(TrimStart(s)) == NonWs(s)
    decreases |s|
  {
    if s != [] && IsWs(s[0]) {
      TrimStartKeepsNonWs(s[1..]);
    }
  }

  lemma {:induction false} TrimEndKeepsNonWs(s: string)
    ensures NonWs(TrimEnd(s)) == NonWs(s)
    decreases |s|
  {
    if s != [] && IsWs(s[|s| - 1]) {
      var init := s[..|s| - 1];
      TrimEndKeepsNonWs(init);
      assert s == init + [s[|s| - 1]];
      NonWsConcat(init, [s[|s| - 1]]);
    }
  }

  /** Trimming never touches a non-whitespace character. */
  lemma TrimKeepsNonWs(s: string)
    ensures NonWs(Trim(s)) == NonWs(s)
  {
    TrimStartKeepsNonWs(s);
    TrimEndKeepsNonWs(TrimStart(s));
  }

  /** Trimming keeps the whitespace shape of the text it keeps. */
  lemma TrimKeepsShape(s: string)
    ensures SpacesOnly(s) ==> SpacesOnly(Trim(s))
    ensures NoDoubleWs(s) ==> NoDoubleWs(Trim(s))
    ensures NoClosableOpen(s) ==> NoClosableOpen(Trim(s))
  {
    var k := TrimOffset(s);
    SliceKeepsShape(s, k, Trim(s));
  }

  /** The trimmed text is the slice of the input starting where `TrimStart` stopped. */
  lemma TrimOffset(s: string) returns (k: nat)
    ensures k + |Trim(s)| <= |s| && Trim(s) == s[k..k + |Trim(s)|]
  {
    var t := TrimStart(s);
    k := |s| - |t|;
    var r := TrimEnd(t);
    assert t == s[k..];
    assert r == t[..|r|];
    assert r == s[k..k + |r|];
  }

  /** A string trims to nothing exactly when it is all whitespace. */
  lemma TrimBlank(s: string)
    ensures Trim(s) == [] <==> forall i :: 0 <= i < |s| ==> IsWs(s[i])
  {
    var t := TrimStart(s);
    if !forall i :: 0 <= i < |s| ==> IsWs(s[i]) {
      var k :| 0 <= k < |s| && !IsWs(s[k]);
      assert k >= |s| - |t|;
      assert t[k - (|s| - |t|)] == s[k];
    }
  }

  /** Leading whitespace is trimmed from a non-empty text ending in a non-whitespace character without touching what follows. */
  lemma {:induction false} TrimStartAppend(a: string, x: string)
    requires a != [] && !IsWs(a[|a| - 1])
    ensures TrimStart(a + x) == TrimStart(a) + x
    decreases |a|
  {
    assert (a + x)[0] == a[0];
    if IsWs(a[0]) {
      assert |a| > 1;
      assert (a + x)[1..] == a[1..] + x;
      TrimStartAppend(a[1..], x);
    }
  }

  /** A whitespace run is trimmed away, up to the next non-whitespace character. */
  lemma {:induction false} TrimStartRun(w: string, b: string)
    requires WsRun(w)
    requires b == [] || !IsWs(b[0])
    ensures TrimStart(w + b) == b
    decreases |w|
  {
    if w == [] {
      assert w + b == b;
    } else {
      assert (w + b)[0] == w[0] && (w + b)[1..] == w[1..] + b;
      TrimStartRun(w[1..], b);
    }
  }

  /**
   * Collapsing works piecewise across a boundary that follows a
   * non-whitespace character: no whitespace run spans it.
   */
  lemma {:induction false} CollapseAppend(a: string, x: string)
    requires a == [] || !IsWs(a[|a| - 1])
    ensures Collapse(a + x) == Collapse(a) + Collapse(x)
    decreases |a|
  {
    if a == [] {
      assert a + x == x;
    } else {
      var c, t := CollapseHead(a, x);
      CollapseAppend(t, x);
      ConsAssoc(c, Collapse(t), Collapse(x));
    }
  }

  lemma ConsAssoc(c: char, p: string, q: string)
    ensures [c] + (p + q) == ([c] + p) + q
  {
  }

  /**
   * The first step of collapsing `a + x` when `a` is non-empty and ends in a
   * non-whitespace character: it emits `c` and goes on with `t + x`, exactly
   * as collapsing `a` alone emits `c` and goes on with `t`.
   */
  lemma CollapseHead(a: string, x: string) returns (c: char, t: string)
    requires a != [] && !IsWs(a[|a| - 1])
    ensures |t| < |a| && (t == [] || !IsWs(t[|t| - 1]))
    ensures Collapse(a) == [c] + Collapse(t)
    ensures Collapse(a + x) == [c] + Collapse(t + x)
  {
    t := if IsWs(a[0]) then TrimStart(a) else a[1..];
    c := if IsWs(a[0]) then ' ' else a[0];
    assert (a + x)[0] == a[0];
    if IsWs(a[0]) {
      TrimStartAppend(a, x);
      assert t != [] && t[|t| - 1] == a[|a| - 1];
    } else {
      assert (a + x)[1..] == t + x;
      assert t == [] || t[|t| - 1] == a[|a| - 1];
    }
  }

  /** A run of whitespace characters, possibly empty. */
  predicate WsRun(w: string) {
    forall i :: 0 <= i < |w| ==> IsWs(w[i])
  }

  /** A word: text holding no whitespace character. */
  predicate Word(u: string) {
    forall i :: 0 <= i < |u| ==> !IsWs(u[i])
  }

  /** A non-empty word starts and ends with a non-whitespace character. */
  lemma WordEnds(u: string)
    requires u != [] && Word(u)
    ensures !IsWs(u[0]) && !IsWs(u[|u| - 1])
  {
  }

  /** A whitespace run before a non-whitespace character, or at the end, becomes one space. */
  lemma CollapseRun(w: string, b: string)
    requires w != [] && WsRun(w)
    requires b == [] || !IsWs(b[0])
    ensures Collapse(w + b) == [' '] + Collapse(b)
  {
    assert (w + b)[0] == w[0];
    TrimStartRun(w, b);
  }

  /** Two words with a whitespace run between them stay two words with one space between them. */
  lemma CollapseBetweenWords(u: string, w: string, v: string)
    requires u != [] && v != [] && Word(u) && Word(v)
    requires w != [] && WsRun(w)
    ensures Collapse(u + w + v) == u + [' '] + v
  {
    var x := w + v;
    assert Collapse(x) == [' '] + v by {
      WordEnds(v);
      CollapseRun(w, v);
      CollapseWord(v);
    }
    assert Collapse(u + x) == u + Collapse(x) by {
      WordEnds(u);
      CollapseAppend(u, x);
      CollapseWord(u);
    }
    assert u + w + v == u + x;
    assert u + ([' '] + v) == u + [' '] + v;
  }

  /** Text without whitespace is left as it is. */
  lemma {:induction false} CollapseWord(u: string)
    requires Word(u)
    ensures Collapse(u) == u
    decreases |u|
  {
    if u != [] {
      assert u[1..][0..] == u[1..];
      assert forall i :: 0 <= i < |u[1..]| ==> u[1..][i] == u[i + 1];
      CollapseWord(u[1..]);
      assert u == [u[0]] + u[1..];
    }
  }

  /**
   * Every whitespace character left by collapsing is a space and no two are
   * adjacent; the result is no longer than the input, empty only for empty
   * input, and starts with whitespace exactly when the input does.
   */
  lemma {:induction false} CollapseShape(s: string)
    ensures var r := Collapse(s);
      |r| <= |s| && (s != [] ==> r != [] && (IsWs(r[0]) <==> IsWs(s[0]))) &&
      SpacesOnly(r) && NoDoubleWs(r)
    decreases |s|
  {
    if s != [] {
      var t := if IsWs(s[0]) then TrimStart(s) else s[1..];
      var c := if IsWs(s[0]) then ' ' else s[0];
      var rest := Collapse(t);
      CollapseShape(t);
      assert Collapse(s) == [c] + rest;
      assert IsWs(s[0]) ==> t == [] || !IsWs(t[0]);
      assert IsWs(s[0]) ==> rest == [] || !IsWs(rest[0]);
      ConsShape(c, rest);
    }
  }

  /** Putting `c` in front keeps the shape, as long as two whitespace characters do not meet. */
  lemma ConsShape(c: char, t: string)
    requires SpacesOnly(t) && NoDoubleWs(t)
    requires IsWs(c) ==> c == ' ' && (t == [] || !IsWs(t[0]))
    ensures SpacesOnly([c] + t) && NoDoubleWs([c] + t)
  {
    var s := [c] + t;
    forall i | 0 <= i < |s| - 1 ensures !(IsWs(s[i]) && IsWs(s[i + 1])) {
      assert s[i + 1] == t[i];
      if i > 0 {
        assert s[i] == t[i - 1];
      }
    }
    forall i | 0 <= i < |s| && IsWs(s[i]) ensures s[i] == ' ' {
      if i > 0 {
        assert s[i] == t[i - 1];
      }
    }
  }

  /** Collapsing whitespace keeps the non-whitespace characters and their order. */
  lemma {:induction false} CollapseKeepsNonWs(s: string)
    ensures NonWs(Collapse(s)) == NonWs(s)
    decreases |s|
  {
    if s == [] {
    } else if IsWs(s[0]) {
      var t := TrimStart(s);
      CollapseKeepsNonWs(t);
      TrimStartKeepsNonWs(s);
      NonWsConcat([' '], Collapse(t));
    } else {
      CollapseKeepsNonWs(s[1..]);
      NonWsConcat([s[0]], Collapse(s[1..]));
      NonWsConcat([s[0]], s[1..]);
      assert s == [s[0]] + s[1..];
    }
  }

  lemma ConsNoClosableOpen(c: char, t: string)
    ensures NoClosableOpen([c] + t) <==> (c == '(' ==> ')' !in t) && NoClosableOpen(t)
  {
    var s := [c] + t;
    if NoClosableOpen(s) {
      forall k | 0 <= k < |t| ensures c == '(' ==> t[k] != ')' {
        assert s[0] == c && s[k + 1] == t[k];
      }
      forall i, j | 0 <= i < j < |t| && t[i] == '(' ensures t[j] != ')' {
        assert s[i + 1] == t[i] && s[j + 1] == t[j];
      }
    }
    if (c == '(' ==> ')' !in t) && NoClosableOpen(t) {
      forall i, j | 0 <= i < j < |s| && s[i] == '(' ensures s[j] != ')' {
        assert s[j] == t[j - 1];
        if i == 0 {
          assert t[j - 1] in t;
        } else {
          assert s[i] == t[i - 1];
        }
      }
    }
  }

  /** Whether a `(` can be closed depends on the non-whitespace characters only. */
  lemma {:induction false} NoClosableOpenNonWs(s: string)
    ensures NoClosableOpen(s) <==> NoClosableOpen(NonWs(s))
    decreases |s|
  {
    if s != [] {
      assert s == [s[0]] + s[1..];
      ConsNoClosableOpen(s[0], s[1..]);
      NoClosableOpenNonWs(s[1..]);
      if IsWs(s[0]) {
        assert NonWs(s) == NonWs(s[1..]);
      } else {
        assert NonWs(s) == [s[0]] + NonWs(s[1..]);
        NonWsMembers(s[1..]);
        assert ')' in s[1..] <==> ')' in NonWs(s[1..]);
        ConsNoClosableOpen(s[0], NonWs(s[1..]));
      }
    }
  }

  lemma {:induction false} SubseqOfSuffix(a: string, b: string, k: int)
    requires 0 <= k <= |b| && IsSubseq(a, b[k..])
    ensures IsSubseq(a, b)
    decreases k
  {
    if k > 0 && a != [] {
      assert b[1..][k - 1..] == b[k..];
      SubseqOfSuffix(a, b[1..], k - 1);
    }
  }

  lemma {:induction false} CollapseFixes(s: string)
    requires SpacesOnly(s) && NoDoubleWs(s)
    ensures Collapse(s) == s
    decreases |s|
  {
    if s != [] {
      var t := s[1..];
      SliceKeepsShape(s, 1, s[1..]);
      assert s[1..|s|] == t;
      CollapseFixes(t);
      assert s == [s[0]] + t;
      if IsWs(s[0]) {
        assert t == [] || !IsWs(t[0]) by {
          if t != [] {
            assert t[0] == s[1];
          }
        }
        assert TrimStart(s) == t;
        assert Collapse(s) == [' '] + Collapse(t);
      } else {
        assert Collapse(s) == [s[0]] + Collapse(t);
      }
    }
  }

  // ---------------------------------------------------------------------------
  // Properties of the chain

  /** After the parenthetical removal no surviving `(` has a `)` after it. */
  lemma {:induction false} StripParensLeavesNoClosableOpen(s: string)
    ensures NoClosableOpen(StripParens(s))
    ensures forall c :: c in StripParens(s) ==> c in s
    decreases |s|
  {
    if s == [] {
    } else if s[0] == '(' && ')' in s[1..] {
      var t := AfterClose(s[1..]);
      StripParensLeavesNoClosableOpen(t);
      assert forall c :: c in t ==> c in s[1..];
    } else {
      StripParensLeavesNoClosableOpen(s[1..]);
      ConsNoClosableOpen(s[0], StripParens(s[1..]));
    }
  }

  /** The removal keeps the order of what it keeps. */
  lemma {:induction false} StripParensSubseq(s: string)
    ensures IsSubseq(StripParens(s), s)
    ensures IsSubseq(NonWs(StripParens(s)), s)
    decreases |s|
  {
    if s == [] {
    } else if s[0] == '(' && ')' in s[1..] {
      var t := AfterClose(s[1..]);
      StripParensSubseq(t);
      assert t == s[|s| - |t|..];
      SubseqOfSuffix(StripParens(t), s, |s| - |t|);
      SubseqOfSuffix(NonWs(StripParens(t)), s, |s| - |t|);
    } else {
      var rest := StripParens(s[1..]);
      StripParensSubseq(s[1..]);
      var r := [s[0]] + rest;
      assert r[1..] == rest;
      assert NonWs(r) == (if IsWs(s[0]) then [] else [s[0]]) + NonWs(rest);
      if IsWs(s[0]) {
        assert NonWs(r) == NonWs(rest);
        SubseqOfSuffix(NonWs(r), s, 1);
      } else {
        assert NonWs(r)[1..] == NonWs(rest);
      }
    }
  }

  /**
   * The removal never lengthens, and shortens text in which a `(` can be
   * closed; `StripParensFixes` gives the converse.
   */
  lemma {:induction false} StripParensShrinks(s: string)
    ensures |StripParens(s)| <= |s|
    ensures !NoClosableOpen(s) ==> |StripParens(s)| < |s|
    decreases |s|
  {
    if s == [] {
    } else if s[0] == '(' && ')' in s[1..] {
      StripParensShrinks(AfterClose(s[1..]));
    } else {
      StripParensShrinks(s[1..]);
      assert s == [s[0]] + s[1..];
      ConsNoClosableOpen(s[0], s[1..]);
    }
  }

  /** Text without a closable `(` passes the removal unchanged, and only such text does. */
  lemma {:induction false} StripParensFixes(s: string)
    ensures StripParens(s) == s <==> NoClosableOpen(s)
    decreases |s|
  {
    StripParensShrinks(s);
    if s != [] && NoClosableOpen(s) {
      assert s == [s[0]] + s[1..];
      ConsNoClosableOpen(s[0], s[1..]);
      StripParensFixes(s[1..]);
    }
  }

  /** The `(` at `i` has no `)` anywhere after it, so the removal cannot close it. */
  predicate UnclosedOpenAt(s: string, i: int) {
    0 <= i < |s| && s[i] == '(' && ')' !in s[i + 1..]
  }

  /** An unclosable `(` lies after every `)`. */
  lemma UnclosedAfterClose(s: string, i: int, c: int)
    requires UnclosedOpenAt(s, i) && 0 <= c < |s| && s[c] == ')'
    ensures i > c
  {
  }

  /** Being an unclosable `(` does not depend on what comes before it. */
  lemma UnclosedInSuffix(s: string, k: int, i: int)
    requires 0 <= k <= i
    ensures UnclosedOpenAt(s, i) <==> k <= |s| && UnclosedOpenAt(s[k..], i - k)
  {
    if i < |s| {
      assert s[k..][i - k] == s[i] && s[k..][i - k + 1..] == s[i + 1..];
    }
  }

  /**
   * A `(` survives the removal exactly when the input has a `(` with no `)`
   * anywhere after it: such a `(` is never inside a removed group, and any
   * other `(` is either removed or opens a group.
   */
  lemma {:induction false} StripParensKeepsOpen(s: string)
    ensures '(' in StripParens(s) <==> exists i :: UnclosedOpenAt(s, i)
    decreases |s|
  {
    if s == [] {
    } else if s[0] == '(' && ')' in s[1..] {
      var t := AfterClose(s[1..]);
      var k := |s| - |t|;
      assert t == s[k..] && s[k - 1] == ')';
      StripParensKeepsOpen(t);
      forall i | UnclosedOpenAt(s, i) ensures UnclosedOpenAt(t, i - k) {
        UnclosedAfterClose(s, i, k - 1);
        UnclosedInSuffix(s, k, i);
      }
      forall j | UnclosedOpenAt(t, j) ensures UnclosedOpenAt(s, j + k) {
        UnclosedInSuffix(s, k, j + k);
      }
    } else {
      StripParensKeepsOpen(s[1..]);
      assert StripParens(s) == [s[0]] + StripParens(s[1..]);
      forall i | UnclosedOpenAt(s, i) && i > 0 ensures UnclosedOpenAt(s[1..], i - 1) {
        UnclosedInSuffix(s, 1, i);
      }
      forall j | UnclosedOpenAt(s[1..], j) ensures UnclosedOpenAt(s, j + 1) {
        UnclosedInSuffix(s, 1, j + 1);
      }
      if s[0] == '(' {
        assert UnclosedOpenAt(s, 0);
      }
    }
  }

  /** Text with no `(` passes the removal unchanged in front of whatever follows it. */
  lemma {:induction false} StripParensPlain(a: string, b: string)
    requires '(' !in a
    ensures StripParens(a + b) == a + StripParens(b)
    decreases |a|
  {
    if a != [] {
      assert (a + b)[0] == a[0] && (a + b)[1..] == a[1..] + b;
      StripParensPlain(a[1..], b);
      assert a == [a[0]] + a[1..];
    } else {
      assert a + b == b;
    }
  }

  /** After text with no `)`, the first `)` is the one that follows it. */
  lemma AfterCloseSkips(m: string, b: string)
    requires ')' !in m
    ensures ')' in m + [')'] + b && AfterClose(m + [')'] + b) == b
  {
    var s := m + [')'] + b;
    assert s[|m|] == ')';
    var r := AfterClose(s);
    var k := |s| - |r|;
    assert s[k - 1] == ')' && ')' !in s[..k - 1];
    assert r == s[|m| + 1..];
    assert s[|m| + 1..] == b;
  }

  /**
   * A group `(m)` whose body has no `)`, after text with no `(`, is removed
   * whole, and the text before it is kept.
   */
  lemma StripParensGroup(a: string, m: string, b: string)
    requires '(' !in a && ')' !in m
    ensures StripParens(a + ['('] + m + [')'] + b) == a + StripParens(b)
  {
    var g := ['('] + (m + [')'] + b);
    assert a + ['('] + m + [')'] + b == a + g;
    assert StripParens(g) == StripParens(b) by {
      AfterCloseSkips(m, b);
      assert g[0] == '(' && g[1..] == m + [')'] + b;
    }
    StripParensPlain(a, g);
  }

  /**
   * A cleaned fact has no leading or trailing whitespace, every whitespace
   * character in it is a space, and no two are adjacent.
   */
  lemma CleanShape(extract: string)
    ensures var r := Clean(extract);
      Trimmed(r) && SpacesOnly(r) && NoDoubleWs(r)
  {
    CollapseShape(StripParens(extract));
    TrimKeepsShape(Collapse(StripParens(extract)));
  }

  /** A cleaned fact has no closable `(` left. */
  lemma CleanNoClosableOpen(extract: string)
    ensures NoClosableOpen(Clean(extract))
  {
    var p := StripParens(extract);
    StripParensLeavesNoClosableOpen(extract);
    NoClosableOpenNonWs(p);
    CollapseKeepsNonWs(p);
    NoClosableOpenNonWs(Collapse(p));
    TrimKeepsShape(Collapse(p));
  }

  /** The non-whitespace characters of a cleaned fact are a subsequence of the extract. */
  lemma CleanSubseq(extract: string)
    ensures IsSubseq(NonWs(Clean(extract)), extract)
  {
    var p := StripParens(extract);
    StripParensSubseq(extract);
    CollapseKeepsNonWs(p);
    TrimKeepsNonWs(Collapse(p));
  }

  /** Cleaning a cleaned fact changes nothing. */
  lemma CleanIdempotent(extract: string)
    ensures Clean(Clean(extract)) == Clean(extract)
  {
    var c := Clean(extract);
    CleanShape(extract);
    CleanNoClosableOpen(extract);
    StripParensFixes(c);
    CollapseFixes(c);
    assert TrimStart(c) == c;
    assert TrimEnd(c) == c;
  }

  /** An announced fact is never empty: it holds at least the lead-in phrase. */
  lemma AnnounceNonEmpty(extract: string)
    ensures |Announce(extract)| >= |Lead| > 0
  {
  }

  /**
   * An announced fact is the lead-in phrase followed by text cleaned of
   * closable parentheticals and surplus whitespace, whose visible characters
   * come from the extract in order, and which cleaning leaves as it is.
   */
  lemma AnnounceShape(extract: string)
    ensures |Announce(extract)| >= |Lead| && Announce(extract)[..|Lead|] == Lead
    ensures var rest := Announce(extract)[|Lead|..];
      Trimmed(rest) && SpacesOnly(rest) && NoDoubleWs(rest) && NoClosableOpen(rest) &&
      IsSubseq(NonWs(rest), extract) && Clean(rest) == rest
  {
    assert Announce(extract)[|Lead|..] == Clean(extract);
    CleanShape(extract);
    CleanNoClosableOpen(extract);
    CleanSubseq(extract);
    CleanIdempotent(extract);
  }
}
