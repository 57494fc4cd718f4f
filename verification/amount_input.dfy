/**
  The amount field's input filter in the browser page: keep only digits and
  decimal points, then keep only the first decimal point, moving every
  digit after a later point up behind it.
 */
module AmountInput {
  import Text

  predicate IsDigit(c: char) {
    '0' <= c <= '9'
  }

  /** The characters the filter lets through. */
  predicate Allowed(c: char) {
    IsDigit(c) || c == '.'
  }

  /** Delete every character that is neither a digit nor a point (the global regular-expression replace). */
  function KeepAllowed(s: string): (r: string)
    ensures forall i :: 0 <= i < |r| ==> Allowed(r[i])
  {
    if |s| == 0 then ""
    else (if Allowed(s[0]) then [s[0]] else []) + KeepAllowed(s[1..])
  }

  /** The digits of `s`, in order. */
  function Digits(s: string): string {
    if |s| == 0 then ""
    else (if IsDigit(s[0]) then [s[0]] else []) + Digits(s[1..])
  }

  /** `s` without its points. */
  function DropDots(s: string): string {
    if |s| == 0 then ""
    else (if s[0] == '.' then [] else [s[0]]) + DropDots(s[1..])
  }

  function CountDots(s: string): nat {
    if |s| == 0 then 0
    else (if s[0] == '.' then 1 else 0) + CountDots(s[1..])
  }

  /** `s.split('.')`: the pieces between points; one more piece than there are points. */
  function Split(s: string): (parts: seq<string>)
    ensures |parts| >= 1
  {
    if |s| == 0 then [""]
    else
      var rest := Split(s[1..]);
      if s[0] == '.' then [""] + rest
      else [[s[0]] + rest[0]] + rest[1..]
  }

  /** `parts.join('')`. */
  function Concat(parts: seq<string>): string {
    if |parts| == 0 then "" else parts[0] + Concat(parts[1..])
  }

  /** `parts.join('.')`. */
  function Join(parts: seq<string>): string {
    if |parts| == 0 then ""
    else if |parts| == 1 then parts[0]
    else parts[0] + "." + Join(parts[1..])
  }

  /** The text before the first point (all of it when there is none). */
  function BeforeFirstDot(s: string): string {
    if '.' in s then s[..Text.IndexOf(s, '.')] else s
  }

  /** The text after the first point (nothing when there is none). */
  function AfterFirstDot(s: string): string {
    if '.' in s then s[Text.IndexOf(s, '.') + 1..] else ""
  }

  /**
    The input handler's rewrite of the field's text: only digits and points
    remain, at most one point, and deleting that point leaves exactly the
    input's digits in their order.
   */
  function Sanitize(input: string): (r: string)
    ensures forall i :: 0 <= i < |r| ==> Allowed(r[i])
    ensures CountDots(r) <= 1
    ensures DropDots(r) == Digits(input)
  {
    var value := KeepAllowed(input);
    var parts := Split(value);
    KeepAllowedKeepsDigits(input);
    SplitPieces(value);
    if |parts| > 2 then
      MergeAlphabet(value);
      MergeSinglePoint(value);
      MergeKeepsDigits(value);
      parts[0] + "." + Concat(parts[1..])
    else
      value
  }

  // Facts about the pieces.

  lemma {:induction false} DropDotsAppend(a: string, b: string)
    ensures DropDots(a + b) == DropDots(a) + DropDots(b)
    decreases |a|
  {
    if |a| > 0 {
      assert (a + b)[1..] == a[1..] + b;
      DropDotsAppend(a[1..], b);
    } else {
      assert a + b == b;
    }
  }

  lemma {:induction false} CountDotsAppend(a: string, b: string)
    ensures CountDots(a + b) == CountDots(a) + CountDots(b)
    decreases |a|
  {
    if |a| > 0 {
      assert (a + b)[1..] == a[1..] + b;
      CountDotsAppend(a[1..], b);
    } else {
      assert a + b == b;
    }
  }

  lemma {:induction false} NoDotsCounted(s: string)
    ensures CountDots(s) == 0 <==> '.' !in s
    ensures '.' !in s ==> DropDots(s) == s
    decreases |s|
  {
    if |s| > 0 {
      NoDotsCounted(s[1..]);
      assert s == [s[0]] + s[1..];
    }
  }

  lemma {:induction false} AllowedKept(s: string)
    requires forall i :: 0 <= i < |s| ==> Allowed(s[i])
    ensures KeepAllowed(s) == s
    decreases |s|
  {
    if |s| > 0 {
      AllowedKept(s[1..]);
      assert s == [s[0]] + s[1..];
    }
  }

  /** Once the filter has run, the digits left are the input's digits. */
  lemma {:induction false} KeepAllowedKeepsDigits(s: string)
    ensures DropDots(KeepAllowed(s)) == Digits(s)
    decreases |s|
  {
    if |s| > 0 {
      var head: string := if Allowed(s[0]) then [s[0]] else [];
      DropDotsAppend(head, KeepAllowed(s[1..]));
      KeepAllowedKeepsDigits(s[1..]);
    }
  }

  /** No piece of a split contains a point, and there is one more piece than points. */
  lemma {:induction false} SplitPieces(s: string)
    ensures |Split(s)| == CountDots(s) + 1
    ensures forall i :: 0 <= i < |Split(s)| ==> '.' !in Split(s)[i]
    decreases |s|
  {
    if |s| > 0 {
      SplitPieces(s[1..]);
      var rest := Split(s[1..]);
      if s[0] != '.' {
        var parts := Split(s);
        assert parts[0] == [s[0]] + rest[0];
        forall i | 0 < i < |parts|
          ensures '.' !in parts[i]
        {
          assert parts[i] == rest[i];
        }
      }
    }
  }

  /** Joining the pieces with points gives back the text that was split. */
  lemma {:induction false} JoinSplit(s: string)
    ensures Join(Split(s)) == s
    decreases |s|
  {
    if |s| > 0 {
      JoinSplit(s[1..]);
      var rest := Split(s[1..]);
      if s[0] == '.' {
        assert Split(s) == [""] + rest;
        assert s == "." + s[1..];
      } else {
        var parts := Split(s);
        assert parts[1..] == rest[1..];
        assert s == [s[0]] + s[1..];
        if |rest| == 1 {
          assert parts == [[s[0]] + rest[0]];
        } else {
          assert Join(rest) == rest[0] + "." + Join(rest[1..]);
        }
      }
    }
  }

  /** Joining the pieces without separators drops the points. */
  lemma {:induction false} ConcatSplit(s: string)
    ensures Concat(Split(s)) == DropDots(s)
    decreases |s|
  {
    if |s| > 0 {
      ConcatSplit(s[1..]);
      var rest := Split(s[1..]);
      if s[0] != '.' {
        var parts := Split(s);
        assert parts[1..] == rest[1..];
        assert Concat(rest) == rest[0] + Concat(rest[1..]);
      }
    }
  }

  /** The first piece is the text before the first point; the others, joined, are the text after it without points. */
  lemma {:induction false} SplitAtFirstDot(s: string)
    ensures Split(s)[0] == BeforeFirstDot(s)
    ensures Concat(Split(s)[1..]) == DropDots(AfterFirstDot(s))
    decreases |s|
  {
    if |s| > 0 {
      SplitAtFirstDot(s[1..]);
      var rest := Split(s[1..]);
      if s[0] == '.' {
        assert Text.IndexOf(s, '.') == 0;
        assert AfterFirstDot(s) == s[1..];
        assert Split(s)[1..] == rest;
        ConcatSplit(s[1..]);
      } else {
        SplitSkipsLetter(s);
        if '.' in s {
          FirstDotAfterLetter(s);
        } else {
          assert '.' !in s[1..];
        }
      }
    }
  }

  lemma SplitSkipsLetter(s: string)
    requires |s| > 0 && s[0] != '.'
    ensures Split(s)[0] == [s[0]] + Split(s[1..])[0]
    ensures Split(s)[1..] == Split(s[1..])[1..]
  {
  }

  lemma FirstDotAfterLetter(s: string)
    requires |s| > 0 && s[0] != '.' && '.' in s
    ensures '.' in s[1..]
    ensures BeforeFirstDot(s) == [s[0]] + BeforeFirstDot(s[1..])
    ensures AfterFirstDot(s) == AfterFirstDot(s[1..])
  {
    assert s == [s[0]] + s[1..];
    var j := Text.IndexOf(s[1..], '.');
    assert Text.IndexOf(s, '.') == j + 1;
    assert s[..j + 1] == [s[0]] + s[1..][..j];
  }

  /** Concatenating point-free pieces gives a point-free text. */
  lemma {:induction false} ConcatNoDots(parts: seq<string>)
    requires forall i :: 0 <= i < |parts| ==> '.' !in parts[i]
    ensures '.' !in Concat(parts)
    decreases |parts|
  {
    if |parts| > 0 {
      ConcatNoDots(parts[1..]);
    }
  }

  // What the rewrite guarantees.

  /** With at most one point after filtering, the filtered text is the result. */
  lemma SanitizeKeepsSinglePoint(input: string)
    requires CountDots(KeepAllowed(input)) <= 1
    ensures Sanitize(input) == KeepAllowed(input)
  {
    SplitPieces(KeepAllowed(input));
  }

  /** Text of digits and at most one point is left exactly as typed. */
  lemma SanitizeLeavesCleanText(input: string)
    requires forall i :: 0 <= i < |input| ==> Allowed(input[i])
    requires CountDots(input) <= 1
    ensures Sanitize(input) == input
  {
    AllowedKept(input);
    SanitizeKeepsSinglePoint(input);
  }

  /**
    With two or more points after filtering, the result is the text before
    the first point, one point, and the digits after it.
   */
  lemma SanitizeMergesLaterPoints(input: string)
    requires CountDots(KeepAllowed(input)) >= 2
    ensures var value := KeepAllowed(input);
      Sanitize(input) == BeforeFirstDot(value) + "." + DropDots(AfterFirstDot(value))
  {
    var value := KeepAllowed(input);
    SplitPieces(value);
    NoDotsCounted(value);
    SplitAtFirstDot(value);
  }

  /** Merging the later pieces of filtered text behind its first point introduces no other character. */
  lemma MergeAlphabet(value: string)
    requires forall i :: 0 <= i < |value| ==> Allowed(value[i])
    requires |Split(value)| > 2
    ensures var merged := Split(value)[0] + "." + Concat(Split(value)[1..]);
      forall i :: 0 <= i < |merged| ==> Allowed(merged[i])
  {
    var parts := Split(value);
    var rest := Concat(parts[1..]);
    ConcatSplit(value);
    SplitPieces(value);
    assert Concat(parts) == parts[0] + rest;
    assert value == Join(parts) by {
      JoinSplit(value);
    }
    forall i | 0 <= i < |parts[0]|
      ensures Allowed(parts[0][i])
    {
      PieceCharsComeFromText(value, 0, i);
    }
    forall i | 0 <= i < |rest|
      ensures Allowed(rest[i])
    {
      DropDotsChars(value, i);
    }
  }

  /** Every character of a split piece occurs in the text that was split. */
  lemma {:induction false} PieceCharsComeFromText(s: string, j: int, i: int)
    requires 0 <= j < |Split(s)| && 0 <= i < |Split(s)[j]|
    ensures Split(s)[j][i] in s
    decreases |s|
  {
    if |s| > 0 {
      var rest := Split(s[1..]);
      if s[0] == '.' {
        if j > 0 {
          PieceCharsComeFromText(s[1..], j - 1, i);
        }
      } else if j == 0 {
        if i > 0 {
          PieceCharsComeFromText(s[1..], 0, i - 1);
        }
      } else {
        PieceCharsComeFromText(s[1..], j, i);
      }
    }
  }

  /** The concatenated later pieces hold characters of the text that was split. */
  lemma DropDotsChars(s: string, i: int)
    requires |Split(s)| >= 1 && 0 <= i < |Concat(Split(s)[1..])|
    ensures Concat(Split(s)[1..])[i] in s
  {
    ConcatSplit(s);
    var parts := Split(s);
    assert Concat(parts) == parts[0] + Concat(parts[1..]);
    DropDotsSubset(s, |parts[0]| + i);
  }

  lemma {:induction false} DropDotsSubset(s: string, i: int)
    requires 0 <= i < |DropDots(s)|
    ensures DropDots(s)[i] in s
    decreases |s|
  {
    if |s| > 0 {
      if s[0] == '.' {
        DropDotsSubset(s[1..], i);
      } else if i > 0 {
        DropDotsSubset(s[1..], i - 1);
      }
    }
  }

  /** Merging the later pieces behind the first point leaves exactly one point. */
  lemma MergeSinglePoint(value: string)
    requires |Split(value)| > 2
    ensures CountDots(Split(value)[0] + "." + Concat(Split(value)[1..])) == 1
  {
    var parts := Split(value);
    SplitPieces(value);
    NoDotsCounted(parts[0]);
    ConcatNoDots(parts[1..]);
    NoDotsCounted(Concat(parts[1..]));
    assert parts[0] + "." + Concat(parts[1..]) == parts[0] + ("." + Concat(parts[1..]));
    CountDotsAppend(parts[0], "." + Concat(parts[1..]));
    CountDotsAppend(".", Concat(parts[1..]));
  }

  /** Deleting the one point between two point-free texts joins them. */
  lemma DropTheOnePoint(head: string, tail: string)
    requires '.' !in head && '.' !in tail
    ensures DropDots(head + ("." + tail)) == head + tail
  {
    var rest := "." + tail;
    assert rest[0] == '.' && rest[1..] == tail;
    assert DropDots(rest) == DropDots(tail);
    NoDotsCounted(head);
    NoDotsCounted(tail);
    DropDotsAppend(head, rest);
  }

  /** Merging the later pieces behind the first point keeps the text's digits. */
  lemma MergeKeepsDigits(value: string)
    requires |Split(value)| > 2
    ensures DropDots(Split(value)[0] + "." + Concat(Split(value)[1..])) == DropDots(value)
  {
    var parts := Split(value);
    var head := parts[0];
    var tail := Concat(parts[1..]);
    SplitPieces(value);
    ConcatSplit(value);
    ConcatNoDots(parts[1..]);
    assert head + "." + tail == head + ("." + tail);
    DropTheOnePoint(head, tail);
    assert Concat(parts) == head + tail;
  }

  /** Running the rewrite on its own result changes nothing. */
  lemma SanitizeIdempotent(input: string)
    ensures Sanitize(Sanitize(input)) == Sanitize(input)
  {
    var r := Sanitize(input);
    AllowedKept(r);
    SanitizeKeepsSinglePoint(r);
  }
}
