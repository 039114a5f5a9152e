/**
 * Line-ending normalisation: the hook's `normalizeNewlines`, a global
 * replacement of the pattern `\r\n|\r|\n` by `\n`. At each position the
 * alternatives are tried in order, so a CR LF pair is one match.
 */
module Newlines {
  import opened Sequences

  const CR: char := '\r'
  const LF: char := '\n'

  /** The string with every line terminator (CR LF, lone CR, LF) written as LF. */
  function Normalize(s: string): (r: string)
    ensures CR !in r
    ensures |r| <= |s|
    ensures r == [] <==> s == []
    decreases |s|
  {
    if s == [] then []
    else if s[0] == CR then
      if |s| > 1 && s[1] == LF then [LF] + Normalize(s[2..]) else [LF] + Normalize(s[1..])
    else [s[0]] + Normalize(s[1..])
  }

  /** A string is its own normal form exactly when it holds no CR. */
  lemma {:induction false} NormalizeFixedPoint(s: string)
    ensures Normalize(s) == s <==> CR !in s
  {
    if s != [] && s[0] != CR {
      NormalizeFixedPoint(s[1..]);
      assert s == [s[0]] + s[1..];
    }
  }

  /** Normalising twice is normalising once. */
  lemma {:induction false} NormalizeIdempotent(s: string)
    ensures Normalize(Normalize(s)) == Normalize(s)
  {
    NormalizeFixedPoint(Normalize(s));
  }

  /** How many characters of a non-empty `s` the first step of `Normalize` consumes. */
  function Step(s: string): nat
    requires s != []
  {
    if s[0] == CR && |s| > 1 && s[1] == LF then 2 else 1
  }

  /** What the first step of `Normalize` writes for a non-empty `s`. */
  function First(s: string): string
    requires s != []
  {
    if s[0] == CR then [LF] else [s[0]]
  }

  /** `Normalize` writes the first step, then normalises the rest. */
  lemma NormalizeStep(s: string)
    requires s != []
    ensures Step(s) <= |s|
    ensures Normalize(s) == First(s) + Normalize(s[Step(s)..])
  {
  }

  /** Appending `b` does not change the first step of `a`, unless it completes a CR LF pair. */
  lemma ConcatStep(a: string, b: string)
    requires a != [] && !(a[|a| - 1] == CR && b != [] && b[0] == LF)
    ensures a + b != []
    ensures Step(a + b) == Step(a) <= |a|
    ensures First(a + b) == First(a)
    ensures (a + b)[Step(a)..] == a[Step(a)..] + b
    ensures a[Step(a)..] != [] ==> a[Step(a)..][|a[Step(a)..]| - 1] == a[|a| - 1]
  {
    assert (a + b)[0] == a[0];
    if |a| > 1 {
      assert (a + b)[1] == a[1];
    }
  }

  /** Normalisation works piece by piece, unless the cut splits a CR LF pair. */
  lemma {:induction false} NormalizeConcat(a: string, b: string)
    requires !(a != [] && a[|a| - 1] == CR && b != [] && b[0] == LF)
    ensures Normalize(a + b) == Normalize(a) + Normalize(b)
    decreases |a|
  {
    if a == [] {
      assert a + b == b;
    } else {
      var r := a[Step(a)..];
      ConcatStep(a, b);
      NormalizeStep(a);
      NormalizeStep(a + b);
      NormalizeConcat(r, b);
      ConcatAssoc(First(a), Normalize(r), Normalize(b));
    }
  }

  /** A CR LF pair becomes a single LF, wherever it stands. */
  lemma CrLfBecomesOneLf(a: string, b: string)
    ensures Normalize(a + [CR, LF] + b) == Normalize(a) + [LF] + Normalize(b)
  {
    ConcatAssoc(a, [CR, LF], b);
    NormalizeConcat(a, [CR, LF] + b);
    NormalizeStep([CR, LF] + b);
    assert ([CR, LF] + b)[2..] == b;
    ConcatAssoc(Normalize(a), [LF], Normalize(b));
  }

  /** A CR that is not followed by LF becomes LF. */
  lemma LoneCrBecomesLf(a: string, b: string)
    requires b == [] || b[0] != LF
    ensures Normalize(a + [CR] + b) == Normalize(a) + [LF] + Normalize(b)
  {
    ConcatAssoc(a, [CR], b);
    NormalizeConcat(a, [CR] + b);
    NormalizeStep([CR] + b);
    assert ([CR] + b)[1..] == b;
    ConcatAssoc(Normalize(a), [LF], Normalize(b));
  }

  /** An LF that does not close a CR LF pair stays one LF. */
  lemma LfStaysLf(a: string, b: string)
    requires a == [] || a[|a| - 1] != CR
    ensures Normalize(a + [LF] + b) == Normalize(a) + [LF] + Normalize(b)
  {
    ConcatAssoc(a, [LF], b);
    NormalizeConcat(a, [LF] + b);
    NormalizeStep([LF] + b);
    assert ([LF] + b)[1..] == b;
    ConcatAssoc(Normalize(a), [LF], Normalize(b));
  }

  /** Every character of the normal form other than LF comes from the input. */
  lemma {:induction false} NormalizeChars(s: string, c: char)
    requires c in Normalize(s) && c != LF
    ensures c in s
  {
    if s[0] == CR && |s| > 1 && s[1] == LF {
      NormalizeChars(s[2..], c);
    } else if s[0] == CR || c != s[0] {
      NormalizeChars(s[1..], c);
    }
  }

  /** The characters that are not line terminators, in order. */
  function Text(s: string): string
  {
    if s == [] then []
    else if s[0] == CR || s[0] == LF then Text(s[1..])
    else [s[0]] + Text(s[1..])
  }

  /** Normalisation only rewrites line terminators: all other text is kept, in order. */
  lemma {:induction false} NormalizeKeepsText(s: string)
    ensures Text(Normalize(s)) == Text(s)
  {
    if s != [] {
      if s[0] == CR && |s| > 1 && s[1] == LF {
        NormalizeKeepsText(s[2..]);
        assert Text(s) == Text(s[1..]) == Text(s[2..]);
      } else {
        NormalizeKeepsText(s[1..]);
      }
    }
  }
}
