/**
 * JavaScript's `String.prototype.includes` and `String.prototype.replaceAll`
 * with a string (not a regular expression) as the search value, as ECMA-262
 * defines them: StringIndexOf scans for the next occurrence, replaceAll
 * collects every occurrence left to right, stepping past each match (by one
 * position for an empty search string), and each match is replaced by the
 * GetSubstitution expansion of the replacement template.
 */
module Replace {
  import opened Wrappers

  /** `f` occurs in `s` at position `i`. */
  predicate MatchAt(s: string, f: string, i: nat)
  {
    i + |f| <= |s| && s[i..i + |f|] == f
  }

  /** `f` occurs at no position from `i` up to, not including, `p`. */
  predicate NoMatchIn(s: string, f: string, i: nat, p: nat)
  {
    forall j :: i <= j < p ==> !MatchAt(s, f, j)
  }

  /** StringIndexOf: the first position at or after `from` where `f` occurs, if any. */
  function IndexOf(s: string, f: string, from: nat): (r: Option<nat>)
    ensures r.Some? ==> from <= r.value && r.value + |f| <= |s|
    decreases |s| - from
  {
    if from + |f| > |s| then None
    else if MatchAt(s, f, from) then Some(from)
    else IndexOf(s, f, from + 1)
  }

  /**
   * StringIndexOf finds the first occurrence at or after `from`, and finds
   * nothing only when there is no such occurrence.
   */
  lemma {:induction false} IndexOfSpec(s: string, f: string, from: nat)
    ensures IndexOf(s, f, from).Some? ==> MatchAt(s, f, IndexOf(s, f, from).value)
    ensures IndexOf(s, f, from).Some? ==> NoMatchIn(s, f, from, IndexOf(s, f, from).value)
    ensures IndexOf(s, f, from).None? ==> forall j :: from <= j ==> !MatchAt(s, f, j)
    decreases |s| - from
  {
    if from + |f| <= |s| && !MatchAt(s, f, from) {
      IndexOfSpec(s, f, from + 1);
    }
  }

  /** `s.includes(f)`: some occurrence of `f` in `s` exists. */
  function Includes(s: string, f: string): (b: bool)
    ensures b <==> exists i :: MatchAt(s, f, i)
  {
    IndexOfSpec(s, f, 0);
    IndexOf(s, f, 0).Some?
  }

  /**
   * The text that the two-character pattern `$c` of a replacement template
   * stands for, if it is one: `$$` is `$`, `$&` the matched text, `` $` `` the
   * text before the match and `$'` the text after it.
   */
  function Pattern(c: char, matched: string, s: string, position: nat): Option<string>
    requires position + |matched| <= |s|
  {
    if c == '$' then Some("$")
    else if c == '&' then Some(matched)
    else if c == '`' then Some(s[..position])
    else if c == '\'' then Some(s[position + |matched|..])
    else None
  }

  /**
   * GetSubstitution for a string search value, which has no capture groups:
   * each of the four patterns is expanded, and every other character,
   * including the `$` of `$1` or `$<`, stands for itself.
   */
  function Substitution(template: string, matched: string, s: string, position: nat): (r: string)
    requires position + |matched| <= |s|
    ensures '$' !in template ==> r == template
    decreases |template|
  {
    if template == [] then []
    else if template[0] == '$' && |template| >= 2 && Pattern(template[1], matched, s, position).Some? then
      Pattern(template[1], matched, s, position).value + Substitution(template[2..], matched, s, position)
    else
      [template[0]] + Substitution(template[1..], matched, s, position)
  }

  /**
   * The replaceAll loop from the match search at `from` on, where `end` is
   * where the previous match ended.
   */
  function ReplaceFrom(s: string, f: string, rep: string, end: nat, from: nat): string
    requires end <= from && end <= |s|
    decreases |s| + 1 - from
  {
    match IndexOf(s, f, from)
    case None => s[end..]
    case Some(p) =>
      s[end..p] + Substitution(rep, f, s, p)
        + ReplaceFrom(s, f, rep, p + |f|, p + if |f| == 0 then 1 else |f|)
  }

  /**
   * `s.replaceAll(f, rep)`. Without an occurrence it returns `s`; for a
   * non-empty search string and a replacement without `$` it is the
   * single-pass, non-overlapping, left-to-right literal replacement.
   */
  function ReplaceAll(s: string, f: string, rep: string): (r: string)
    ensures !Includes(s, f) ==> r == s
    ensures f != [] && '$' !in rep ==> r == LiteralReplace(s, f, rep)
  {
    IndexOfSpec(s, f, 0);
    assert s[0..] == s;
    if f != [] && '$' !in rep then
      ReplaceFromIsLiteral(s, f, rep, 0);
      ReplaceFrom(s, f, rep, 0, 0)
    else
      ReplaceFrom(s, f, rep, 0, 0)
  }

  /**
   * Reference definition of a single-pass global replacement of `f` by
   * `rep` in `s`, from position `i` on: scan from the left; where `f`
   * occurs, emit `rep` and continue after the occurrence (the emitted text
   * is never rescanned); otherwise keep one character.
   */
  function LiteralFrom(s: string, f: string, rep: string, i: nat): string
    requires f != [] && i <= |s|
    decreases |s| - i
  {
    if i + |f| > |s| then s[i..]
    else if MatchAt(s, f, i) then rep + LiteralFrom(s, f, rep, i + |f|)
    else [s[i]] + LiteralFrom(s, f, rep, i + 1)
  }

  /** The reference single-pass replacement of the whole string. */
  function LiteralReplace(s: string, f: string, rep: string): string
    requires f != []
  {
    LiteralFrom(s, f, rep, 0)
  }

  /** The number of occurrences the reference scan replaces from position `i` on. */
  function OccurrencesFrom(s: string, f: string, i: nat): nat
    requires f != [] && i <= |s|
    decreases |s| - i
  {
    if i + |f| > |s| then 0
    else if MatchAt(s, f, i) then 1 + OccurrencesFrom(s, f, i + |f|)
    else OccurrencesFrom(s, f, i + 1)
  }

  /** Positions without an occurrence are copied by the reference scan unchanged. */
  lemma {:induction false} LiteralSkip(s: string, f: string, rep: string, i: nat, p: nat)
    requires f != [] && i <= p <= |s|
    requires NoMatchIn(s, f, i, p)
    ensures LiteralFrom(s, f, rep, i) == s[i..p] + LiteralFrom(s, f, rep, p)
    decreases p - i
  {
    if i < p {
      if i + |f| > |s| {
        assert s[i..] == s[i..p] + s[p..];
      } else {
        assert !MatchAt(s, f, i);
        LiteralSkip(s, f, rep, i + 1, p);
        assert s[i..p] == [s[i]] + s[i + 1..p];
      }
    }
  }

  /** From a match boundary on, the loop of replaceAll computes the reference scan. */
  lemma {:induction false} ReplaceFromIsLiteral(s: string, f: string, rep: string, i: nat)
    requires f != [] && '$' !in rep && i <= |s|
    ensures ReplaceFrom(s, f, rep, i, i) == LiteralFrom(s, f, rep, i)
    decreases |s| - i, 1
  {
    IndexOfSpec(s, f, i);
    var found := IndexOf(s, f, i);
    if found.None? {
      LiteralSkip(s, f, rep, i, |s|);
      assert s[i..|s|] == s[i..];
      assert ReplaceFrom(s, f, rep, i, i) == s[i..];
    } else {
      ReplaceFromIsLiteralAt(s, f, rep, i, found.value);
    }
  }

  /** The step of `ReplaceFromIsLiteral` when the next occurrence is at `p`. */
  lemma {:induction false} ReplaceFromIsLiteralAt(s: string, f: string, rep: string, i: nat, p: nat)
    requires f != [] && '$' !in rep && i <= |s|
    requires IndexOf(s, f, i) == Some(p)
    ensures ReplaceFrom(s, f, rep, i, i) == LiteralFrom(s, f, rep, i)
    decreases |s| - i, 0
  {
    IndexOfSpec(s, f, i);
    var q := p + |f|;
    LiteralSkip(s, f, rep, i, p);
    assert MatchAt(s, f, p);
    assert LiteralFrom(s, f, rep, p) == rep + LiteralFrom(s, f, rep, q);
    assert Substitution(rep, f, s, p) == rep;
    assert ReplaceFrom(s, f, rep, i, i) == s[i..p] + rep + ReplaceFrom(s, f, rep, q, q);
    ReplaceFromIsLiteral(s, f, rep, q);
  }

  /** Where `s` continues as `v` from `k` on, occurrences in `s` there are those in `v`. */
  lemma ShiftMatch(s: string, v: string, f: string, k: nat, i: nat)
    requires k <= |s| && s[k..] == v && i <= |v|
    ensures MatchAt(s, f, k + i) == MatchAt(v, f, i)
  {
    if i + |f| <= |v| {
      assert s[k..][i..i + |f|] == s[k + i..k + i + |f|];
    }
  }

  /** Where `s` continues as `v` from `k` on, a character of `v` where no occurrence starts. */
  lemma ShiftChar(s: string, v: string, f: string, k: nat, i: nat)
    requires k <= |s| && s[k..] == v && i + |f| <= |v| && !MatchAt(v, f, i)
    ensures k + i + |f| <= |s|
    ensures !MatchAt(s, f, k + i)
    ensures s[k + i] == v[i]
  {
    ShiftMatch(s, v, f, k, i);
    assert s[k..][i] == s[k + i];
  }

  /** Where `s` continues as `v` from `k` on, the rest of `s` is the rest of `v`. */
  lemma ShiftTail(s: string, v: string, k: nat, i: nat)
    requires k <= |s| && s[k..] == v && i <= |v|
    ensures s[k + i..] == v[i..]
  {
    assert s[k..][i..] == s[k + i..];
  }

  /** Where `s` continues as `v` from `k` on, the reference scans agree. */
  lemma {:induction false} LiteralShift(s: string, v: string, f: string, rep: string, k: nat, i: nat)
    requires f != [] && k <= |s| && s[k..] == v && i <= |v|
    ensures LiteralFrom(s, f, rep, k + i) == LiteralFrom(v, f, rep, i)
    decreases |v| - i, 1
  {
    if i + |f| > |v| {
      ShiftTail(s, v, k, i);
      assert LiteralFrom(s, f, rep, k + i) == s[k + i..];
    } else if MatchAt(v, f, i) {
      LiteralShiftAtMatch(s, v, f, rep, k, i);
    } else {
      ShiftChar(s, v, f, k, i);
      LiteralPastChar(s, f, rep, k + i, k + (i + 1));
      LiteralPastChar(v, f, rep, i, i + 1);
      LiteralShiftPastChar(s, v, f, rep, k, i);
    }
  }

  /** The step of `LiteralShift` at an occurrence. */
  lemma {:induction false} LiteralShiftAtMatch(s: string, v: string, f: string, rep: string, k: nat, i: nat)
    requires f != [] && k <= |s| && s[k..] == v && i <= |v| && MatchAt(v, f, i)
    ensures LiteralFrom(s, f, rep, k + i) == LiteralFrom(v, f, rep, i)
    decreases |v| - i, 0
  {
    ShiftMatch(s, v, f, k, i);
    var j := i + |f|;
    LiteralAtMatch(s, f, rep, k + i, k + j);
    LiteralAtMatch(v, f, rep, i, j);
    LiteralShift(s, v, f, rep, k, j);
  }

  /** The step of `LiteralShift` past a character where no occurrence starts. */
  lemma {:induction false} LiteralShiftPastChar(s: string, v: string, f: string, rep: string, k: nat, i: nat)
    requires f != [] && k <= |s| && s[k..] == v && i < |v| && k + i < |s|
    requires LiteralFrom(s, f, rep, k + i) == [v[i]] + LiteralFrom(s, f, rep, k + (i + 1))
    requires LiteralFrom(v, f, rep, i) == [v[i]] + LiteralFrom(v, f, rep, i + 1)
    ensures LiteralFrom(s, f, rep, k + i) == LiteralFrom(v, f, rep, i)
    decreases |v| - i, 0
  {
    LiteralShift(s, v, f, rep, k, i + 1);
  }

  /** One step of the reference scan at an occurrence. */
  lemma LiteralAtMatch(s: string, f: string, rep: string, i: nat, next: nat)
    requires f != [] && MatchAt(s, f, i) && next == i + |f|
    ensures LiteralFrom(s, f, rep, i) == rep + LiteralFrom(s, f, rep, next)
  {
  }

  /** One step of the reference scan past a character where no occurrence starts. */
  lemma LiteralPastChar(s: string, f: string, rep: string, i: nat, next: nat)
    requires f != [] && i + |f| <= |s| && !MatchAt(s, f, i) && next == i + 1
    ensures LiteralFrom(s, f, rep, i) == [s[i]] + LiteralFrom(s, f, rep, next)
  {
  }

  /** Text without the first character of `f` is copied unchanged. */
  lemma LiteralCopiesPrefix(u: string, v: string, f: string, rep: string)
    requires f != [] && f[0] !in u
    ensures LiteralReplace(u + v, f, rep) == u + LiteralReplace(v, f, rep)
  {
    var s := u + v;
    forall j | 0 <= j < |u|
      ensures !MatchAt(s, f, j)
    {
      assert s[j] == u[j] != f[0];
      assert j + |f| <= |s| ==> s[j..j + |f|][0] == s[j];
    }
    LiteralSkip(s, f, rep, 0, |u|);
    assert s[0..|u|] == u;
    assert s[|u|..] == v;
    LiteralShift(s, v, f, rep, |u|, 0);
  }

  /** An occurrence at the start is replaced, and the scan resumes after it. */
  lemma LiteralReplacesStart(v: string, f: string, rep: string)
    requires f != []
    ensures LiteralReplace(f + v, f, rep) == rep + LiteralReplace(v, f, rep)
  {
    assert (f + v)[0..|f|] == f;
    assert (f + v)[|f|..] == v;
    LiteralShift(f + v, v, f, rep, |f|, 0);
  }

  /** A character where no occurrence starts is copied. */
  lemma LiteralKeepsChar(c: char, v: string, f: string, rep: string)
    requires f != [] && !MatchAt([c] + v, f, 0)
    ensures LiteralReplace([c] + v, f, rep) == [c] + LiteralReplace(v, f, rep)
  {
    assert ([c] + v)[1..] == v;
    LiteralShift([c] + v, v, f, rep, 1, 0);
  }

  /** The rename example, piece by piece: each "foo" becomes "bar", the rest is kept. */
  lemma LiteralRenamePieces()
    ensures LiteralReplace(['f'] + ("n " + ("foo" + ("() { " + ("foo" + "(); }")))), "foo", "bar")
         == ['f'] + ("n " + ("bar" + ("() { " + ("bar" + "(); }"))))
  {
    var tail := "(); }";
    var t3 := "foo" + tail;
    var t2 := "() { " + t3;
    var t1 := "foo" + t2;
    var t0 := "n " + t1;
    LiteralCopiesPrefix(tail, [], "foo", "bar");
    assert tail + [] == tail;
    LiteralReplacesStart(tail, "foo", "bar");
    LiteralCopiesPrefix("() { ", t3, "foo", "bar");
    LiteralReplacesStart(t2, "foo", "bar");
    LiteralCopiesPrefix("n ", t1, "foo", "bar");
    assert (['f'] + t0)[1] == 'n';
    LiteralKeepsChar('f', t0, "foo", "bar");
  }

  /** The rename example: both occurrences of "foo" become "bar", the rest is kept. */
  lemma LiteralRenameExample()
    ensures LiteralReplace("fn foo() { foo(); }", "foo", "bar") == "fn bar() { bar(); }"
  {
    LiteralRenamePieces();
    assert ['f'] + ("n " + ("foo" + ("() { " + ("foo" + "(); }")))) == "fn foo() { foo(); }";
    assert ['f'] + ("n " + ("bar" + ("() { " + ("bar" + "(); }")))) == "fn bar() { bar(); }";
  }

  /** `$&` in the replacement stands for the matched text, `$$` for one `$`. */
  lemma ReplaceAllPatternExample()
    ensures ReplaceAll("ab", "b", "[$&]") == "a[b]"
    ensures ReplaceAll("ab", "b", "$$") == "a$"
  {
    assert "ab"[0..1][0] == 'a';
    assert "ab"[1..2] == "b";
    assert IndexOf("ab", "b", 0) == Some(1);
    assert IndexOf("ab", "b", 2) == None;
    assert Substitution("]", "b", "ab", 1) == "]";
    assert Substitution("$&]", "b", "ab", 1) == "b]";
    assert Substitution("[$&]", "b", "ab", 1) == "[b]";
    assert Substitution("$$", "b", "ab", 1) == "$";
  }

  /** Replacing every occurrence by itself changes nothing. */
  lemma {:induction false} LiteralSelf(s: string, f: string, i: nat)
    requires f != [] && i <= |s|
    ensures LiteralFrom(s, f, f, i) == s[i..]
    decreases |s| - i
  {
    if i + |f| <= |s| {
      if MatchAt(s, f, i) {
        LiteralSelf(s, f, i + |f|);
        assert s[i..] == s[i..i + |f|] + s[i + |f|..];
      } else {
        LiteralSelf(s, f, i + 1);
        assert s[i..] == [s[i]] + s[i + 1..];
      }
    }
  }

  /** Each replaced occurrence trades |f| characters for |rep|. */
  lemma {:induction false} LiteralLength(s: string, f: string, rep: string, i: nat)
    requires f != [] && i <= |s|
    ensures |LiteralFrom(s, f, rep, i)| + OccurrencesFrom(s, f, i) * |f| == |s| - i + OccurrencesFrom(s, f, i) * |rep|
    decreases |s| - i
  {
    if i + |f| <= |s| {
      if MatchAt(s, f, i) {
        var k := OccurrencesFrom(s, f, i + |f|);
        LiteralLength(s, f, rep, i + |f|);
        assert OccurrencesFrom(s, f, i) == 1 + k;
        assert |LiteralFrom(s, f, rep, i)| == |rep| + |LiteralFrom(s, f, rep, i + |f|)|;
        MulSucc(k, |f|);
        MulSucc(k, |rep|);
      } else {
        LiteralLength(s, f, rep, i + 1);
        assert OccurrencesFrom(s, f, i) == OccurrencesFrom(s, f, i + 1);
        assert |LiteralFrom(s, f, rep, i)| == 1 + |LiteralFrom(s, f, rep, i + 1)|;
      }
    }
  }

  lemma MulSucc(k: nat, n: nat)
    ensures (1 + k) * n == n + k * n
  {
  }

  /** The reference scan finds an occurrence from `i` on exactly when StringIndexOf does. */
  lemma {:induction false} OccurrencesIndexOf(s: string, f: string, i: nat)
    requires f != [] && i <= |s|
    ensures OccurrencesFrom(s, f, i) > 0 <==> IndexOf(s, f, i).Some?
    decreases |s| - i
  {
    if i + |f| <= |s| && !MatchAt(s, f, i) {
      OccurrencesIndexOf(s, f, i + 1);
    }
  }

  /** Substitution only draws characters from the template, the match and the input. */
  lemma {:induction false} SubstitutionChars(template: string, matched: string, s: string, position: nat, c: char)
    requires position + |matched| <= |s|
    requires c in Substitution(template, matched, s, position)
    ensures c in template || c in matched || c in s
    decreases |template|
  {
    var expands := template[0] == '$' && |template| >= 2 && Pattern(template[1], matched, s, position).Some?;
    var rest := if expands then template[2..] else template[1..];
    if c in Substitution(rest, matched, s, position) {
      SubstitutionChars(rest, matched, s, position, c);
    }
  }

  /** Every character of a replaceAll result comes from the input or the replacement. */
  lemma {:induction false} ReplaceFromChars(s: string, f: string, rep: string, end: nat, from: nat, c: char)
    requires end <= from && end <= |s|
    requires c in ReplaceFrom(s, f, rep, end, from)
    ensures c in s || c in rep
    decreases |s| + 1 - from, 1
  {
    if IndexOf(s, f, from).None? {
      assert ReplaceFrom(s, f, rep, end, from) == s[end..];
    } else {
      ReplaceFromCharsAtMatch(s, f, rep, end, from, c);
    }
  }

  /** The case of ReplaceFromChars where an occurrence remains. */
  lemma {:induction false} ReplaceFromCharsAtMatch(s: string, f: string, rep: string, end: nat, from: nat, c: char)
    requires end <= from && end <= |s| && IndexOf(s, f, from).Some?
    requires c in ReplaceFrom(s, f, rep, end, from)
    ensures c in s || c in rep
    decreases |s| + 1 - from, 0
  {
    var p := IndexOf(s, f, from).value;
    var next := p + if |f| == 0 then 1 else |f|;
    var sub, rest := Substitution(rep, f, s, p), ReplaceFrom(s, f, rep, p + |f|, next);
    ReplaceFromAt(s, f, rep, end, from, p, next);
    InConcat(s[end..p], sub, rest, c);
    if c in s[end..p] {
      InSlice(s, end, p, c);
    } else if c in sub {
      SubstitutionChars(rep, f, s, p, c);
      IndexOfSpec(s, f, from);
      if c in f {
        assert MatchAt(s, f, p);
        assert c in s[p..p + |f|];
        InSlice(s, p, p + |f|, c);
      }
    } else {
      ReplaceFromChars(s, f, rep, p + |f|, next, c);
    }
  }

  /** One round of the replaceAll loop, at the occurrence `p` found from `from`. */
  lemma ReplaceFromAt(s: string, f: string, rep: string, end: nat, from: nat, p: nat, next: nat)
    requires end <= from && end <= |s| && IndexOf(s, f, from) == Some(p)
    requires next == p + if |f| == 0 then 1 else |f|
    ensures p + |f| <= |s|
    ensures ReplaceFrom(s, f, rep, end, from)
      == s[end..p] + Substitution(rep, f, s, p) + ReplaceFrom(s, f, rep, p + |f|, next)
  {
  }

  lemma InSlice(s: string, lo: nat, hi: nat, c: char)
    requires lo <= hi <= |s| && c in s[lo..hi]
    ensures c in s
  {
    var k :| 0 <= k < hi - lo && s[lo..hi][k] == c;
    assert s[lo + k] == c;
  }

  lemma InConcat(a: string, b: string, d: string, c: char)
    requires c in a + b + d
    ensures c in a || c in b || c in d
  {
  }

  /** replaceAll introduces no character that is in neither the input nor the replacement. */
  lemma ReplaceAllChars(s: string, f: string, rep: string, c: char)
    requires c in ReplaceAll(s, f, rep)
    ensures c in s || c in rep
  {
    ReplaceFromChars(s, f, rep, 0, 0, c);
  }
}
