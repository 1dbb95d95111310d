/**
 * The few text operations the metadata parser relies on, on strings of
 * Unicode code points: substring search, splitting on one separator and
 * joining back, whitespace-separated fields, and leftmost runs of decimal
 * digits.
 */
module Strings {

  /** `pat` occurs in `s` starting at index `i`. */
  ghost predicate OccursAt(s: string, pat: string, i: nat)
  {
    i + |pat| <= |s| && s[i..i + |pat|] == pat
  }

  /** Substring search: `pat` is a prefix of `s` or of one of its suffixes. */
  function Contains(s: string, pat: string): bool
    decreases |s|
  {
    if |s| < |pat| then false
    else if s[..|pat|] == pat then true
    else Contains(s[1..], pat)
  }

  /** `Contains` answers yes exactly when the pattern occurs somewhere. */
  lemma {:induction false} ContainsIff(s: string, pat: string)
    ensures Contains(s, pat) <==> exists i: nat :: OccursAt(s, pat, i)
    decreases |s|
  {
    if |s| < |pat| {
    } else if s[..|pat|] == pat {
      assert OccursAt(s, pat, 0);
    } else {
      ContainsIff(s[1..], pat);
      if Contains(s[1..], pat) {
        var i: nat :| OccursAt(s[1..], pat, i);
        assert s[1..][i..i + |pat|] == s[i + 1..i + 1 + |pat|];
        assert OccursAt(s, pat, i + 1);
      }
      if exists i: nat :: OccursAt(s, pat, i) {
        var i: nat :| OccursAt(s, pat, i);
        assert i != 0;
        assert s[1..][i - 1..i - 1 + |pat|] == s[i..i + |pat|];
        assert OccursAt(s[1..], pat, i - 1);
      }
    }
  }

  /** `p` is a prefix of `s`. */
  predicate HasPrefix(s: string, p: string)
  {
    |p| <= |s| && s[..|p|] == p
  }

  /**
   * Splitting on a separator character: the pieces between separators, in
   * order, empty ones included, so there is always at least one piece.
   */
  function Split(s: string, sep: char): (parts: seq<string>)
    ensures |parts| >= 1
    ensures forall k | 0 <= k < |parts| :: sep !in parts[k]
    decreases |s|
  {
    if |s| == 0 then [""]
    else
      var rest := Split(s[1..], sep);
      if s[0] == sep then [""] + rest
      else [[s[0]] + rest[0]] + rest[1..]
  }

  /** The pieces with `sep` between each two of them. */
  function Join(parts: seq<string>, sep: string): string
    decreases |parts|
  {
    if |parts| == 0 then ""
    else if |parts| == 1 then parts[0]
    else parts[0] + sep + Join(parts[1..], sep)
  }

  /** Joining the pieces of a split with the separator gives the string back. */
  lemma {:induction false} JoinSplit(s: string, sep: char)
    ensures Join(Split(s, sep), [sep]) == s
    decreases |s|
  {
    if |s| > 0 {
      var rest := Split(s[1..], sep);
      JoinSplit(s[1..], sep);
      if s[0] == sep {
        assert Split(s, sep) == [""] + rest;
        assert ([""] + rest)[1..] == rest;
      } else {
        var parts := [[s[0]] + rest[0]] + rest[1..];
        assert Split(s, sep) == parts;
        if |rest| == 1 {
          assert Join(rest, [sep]) == rest[0];
        } else {
          assert parts[1..] == rest[1..];
          assert Join(rest, [sep]) == rest[0] + [sep] + Join(rest[1..], [sep]);
        }
      }
    }
  }

  /** Without the separator, a string is one piece. */
  lemma {:induction false} SplitNone(s: string, sep: char)
    requires sep !in s
    ensures Split(s, sep) == [s]
    decreases |s|
  {
    if |s| > 0 {
      assert sep !in s[1..];
      SplitNone(s[1..], sep);
      assert [s[0]] + s[1..] == s;
    }
  }

  /** A separator-free prefix followed by a separator is the first piece. */
  lemma {:induction false} SplitFirst(a: string, sep: char, b: string)
    requires sep !in a
    ensures Split(a + [sep] + b, sep) == [a] + Split(b, sep)
    decreases |a|
  {
    if |a| == 0 {
      assert a + [sep] + b == [sep] + b;
      assert ([sep] + b)[1..] == b;
    } else {
      var s := a + [sep] + b;
      assert s[1..] == a[1..] + [sep] + b;
      assert sep !in a[1..];
      SplitFirst(a[1..], sep, b);
      assert [a[0]] + a[1..] == a;
    }
  }

  /** Splitting a join of separator-free pieces gives the pieces back. */
  lemma {:induction false} SplitJoin(parts: seq<string>, sep: char)
    requires |parts| >= 1
    requires forall k | 0 <= k < |parts| :: sep !in parts[k]
    ensures Split(Join(parts, [sep]), sep) == parts
    decreases |parts|
  {
    if |parts| == 1 {
      SplitNone(parts[0], sep);
    } else {
      SplitJoin(parts[1..], sep);
      SplitFirst(parts[0], sep, Join(parts[1..], [sep]));
      assert [parts[0]] + parts[1..] == parts;
    }
  }

  /**
   * White space as Unicode defines it for Go's `unicode.IsSpace`: the ASCII
   * controls tab through carriage return, space, U+0085 and U+00A0, and the
   * Unicode White_Space characters above U+00FF.
   */
  predicate IsSpace(c: char)
  {
    c == '\t' || c == '\n' || c == '\U{000B}' || c == '\U{000C}' || c == '\r' || c == ' '
    || c == '\U{0085}' || c == '\U{00A0}' || c == '\U{1680}'
    || ('\U{2000}' <= c <= '\U{200A}')
    || c == '\U{2028}' || c == '\U{2029}' || c == '\U{202F}' || c == '\U{205F}' || c == '\U{3000}'
  }

  /** A field: non-empty and free of white space. */
  predicate IsWord(w: string)
  {
    |w| > 0 && forall i | 0 <= i < |w| :: !IsSpace(w[i])
  }

  /** The length of the longest prefix of `s` without white space. */
  function WordLength(s: string): (n: nat)
    ensures n <= |s|
    ensures forall i | 0 <= i < n :: !IsSpace(s[i])
    ensures n < |s| ==> IsSpace(s[n])
    decreases |s|
  {
    if |s| == 0 || IsSpace(s[0]) then 0 else 1 + WordLength(s[1..])
  }

  /**
   * The maximal runs of non-white-space characters of `s`, in order. White
   * space at either end or repeated between fields adds nothing.
   */
  function Fields(s: string): (fs: seq<string>)
    ensures forall k | 0 <= k < |fs| :: IsWord(fs[k])
    decreases |s|
  {
    if |s| == 0 then []
    else if IsSpace(s[0]) then Fields(s[1..])
    else
      var n := WordLength(s);
      [s[..n]] + Fields(s[n..])
  }

  /** Leading white space is skipped. */
  lemma {:induction false} FieldsSkipSpace(pad: string, s: string)
    requires forall i | 0 <= i < |pad| :: IsSpace(pad[i])
    ensures Fields(pad + s) == Fields(s)
    decreases |pad|
  {
    if |pad| > 0 {
      assert (pad + s)[0] == pad[0];
      assert (pad + s)[1..] == pad[1..] + s;
      FieldsSkipSpace(pad[1..], s);
    } else {
      assert pad + s == s;
    }
  }

  /** Nothing but white space (possibly nothing at all). */
  predicate AllSpace(s: string)
  {
    forall i | 0 <= i < |s| :: IsSpace(s[i])
  }

  /**
   * A field, a run of white space, then the rest: the field comes first. The
   * run may be empty only at the very end.
   */
  lemma FieldsWord(w: string, sp: string, rest: string)
    requires IsWord(w) && AllSpace(sp)
    requires |sp| > 0 || rest == ""
    ensures Fields(w + sp + rest) == [w] + Fields(rest)
  {
    var s := w + sp + rest;
    assert s == w + (sp + rest);
    if |sp| > 0 {
      assert (sp + rest)[0] == sp[0];
    } else {
      assert sp + rest == "";
    }
    WordLengthOf(w, sp + rest);
    assert s[..|w|] == w;
    assert s[|w|..] == sp + rest;
    FieldsSkipSpace(sp, rest);
    if |sp| == 0 {
      assert Fields(rest) == [];
    }
  }

  lemma {:induction false} WordLengthOf(w: string, rest: string)
    requires forall i | 0 <= i < |w| :: !IsSpace(w[i])
    requires |rest| == 0 || IsSpace(rest[0])
    ensures WordLength(w + rest) == |w|
    decreases |w|
  {
    if |w| > 0 {
      assert (w + rest)[1..] == w[1..] + rest;
      WordLengthOf(w[1..], rest);
    } else {
      assert w + rest == rest;
    }
  }

  /**
   * Words, each followed by its own run of white space: `ws[0] + seps[0] +
   * ws[1] + seps[1] + ...`. This is how a column-aligned table row looks.
   */
  function Spaced(ws: seq<string>, seps: seq<string>): string
    requires |seps| == |ws|
    decreases |ws|
  {
    if |ws| == 0 then "" else ws[0] + seps[0] + Spaced(ws[1..], seps[1..])
  }

  /**
   * The fields of spaced words are the words, whatever the runs between them
   * (each at least one character) and after the last (possibly none).
   */
  lemma {:induction false} FieldsSpaced(ws: seq<string>, seps: seq<string>)
    requires |seps| == |ws|
    requires forall k | 0 <= k < |ws| :: IsWord(ws[k]) && AllSpace(seps[k])
    requires forall k | 0 <= k < |ws| - 1 :: |seps[k]| > 0
    ensures Fields(Spaced(ws, seps)) == ws
    decreases |ws|
  {
    if |ws| > 0 {
      FieldsSpaced(ws[1..], seps[1..]);
      if |ws| == 1 {
        assert Spaced(ws[1..], seps[1..]) == "";
      }
      FieldsWord(ws[0], seps[0], Spaced(ws[1..], seps[1..]));
      assert [ws[0]] + ws[1..] == ws;
    }
  }

  /** An ASCII decimal digit, the class `\d` of Go's regular expressions. */
  predicate IsDigit(c: char)
  {
    '0' <= c <= '9'
  }

  predicate AllDigits(s: string)
  {
    forall i | 0 <= i < |s| :: IsDigit(s[i])
  }

  /** The length of the longest all-digit prefix of `s`. */
  function DigitRunLength(s: string): (n: nat)
    ensures n <= |s|
    ensures AllDigits(s[..n])
    ensures n < |s| ==> !IsDigit(s[n])
    decreases |s|
  {
    if |s| == 0 || !IsDigit(s[0]) then 0 else 1 + DigitRunLength(s[1..])
  }

  /** The index of the first digit of `s`, or `|s|` when it has none. */
  function FirstDigitIndex(s: string): (i: nat)
    ensures i <= |s|
    ensures forall j | 0 <= j < i :: !IsDigit(s[j])
    ensures i < |s| ==> IsDigit(s[i])
    decreases |s|
  {
    if |s| == 0 || IsDigit(s[0]) then 0 else 1 + FirstDigitIndex(s[1..])
  }

  /**
   * What the regular expression `\d+` finds in `s`: the leftmost run of
   * digits, extended as far as it goes, or the empty string when `s` has no
   * digit.
   */
  function FirstDigitRun(s: string): (r: string)
    ensures AllDigits(r)
    ensures r == "" <==> forall j | 0 <= j < |s| :: !IsDigit(s[j])
    ensures r != "" ==>
      var i := FirstDigitIndex(s);
      i + |r| <= |s| && s[i..i + |r|] == r && (i + |r| == |s| || !IsDigit(s[i + |r|]))
  {
    var i := FirstDigitIndex(s);
    var n := DigitRunLength(s[i..]);
    assert n > 0 <==> i < |s|;
    assert s[i..][..n] == s[i..i + n];
    s[i..i + n]
  }

  /** A leading run of digits that ends at a non-digit is the one found. */
  lemma FirstDigitRunOfPrefix(d: string, t: string)
    requires |d| > 0 && AllDigits(d)
    requires |t| == 0 || !IsDigit(t[0])
    ensures FirstDigitRun(d + t) == d
  {
    var s := d + t;
    assert FirstDigitIndex(s) == 0;
    DigitRunOfPrefix(d, t);
    assert s[0..|d|] == d;
  }

  lemma {:induction false} DigitRunOfPrefix(d: string, t: string)
    requires AllDigits(d)
    requires |t| == 0 || !IsDigit(t[0])
    ensures DigitRunLength(d + t) == |d|
    decreases |d|
  {
    if |d| > 0 {
      assert (d + t)[1..] == d[1..] + t;
      DigitRunOfPrefix(d[1..], t);
    } else {
      assert d + t == t;
    }
  }
}
