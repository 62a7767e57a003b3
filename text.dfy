/**
 * The string handling of the label columns: Python's `str.lower()`, `str.strip()`
 * and `str.split(sep)` on ASCII text, and the two label parsers of
 * `IRRProcessor` built from them (`_process_labels` and the expression inside
 * `process_all_labels_file`).
 */
module Text {
  import opened Wrappers

  // ---------------------------------------------------------------------------
  // Lower-casing

  predicate IsUpper(c: char) {
    'A' <= c <= 'Z'
  }

  /** `str.lower()` on one ASCII character. */
  function LowerChar(c: char): char {
    if IsUpper(c) then (c as int + 32) as char else c
  }

  function Lower(s: string): (r: string)
    ensures |r| == |s|
    ensures forall i :: 0 <= i < |s| ==> r[i] == LowerChar(s[i])
  {
    if s == [] then [] else [LowerChar(s[0])] + Lower(s[1..])
  }

  predicate LowerCased(s: string) {
    forall i :: 0 <= i < |s| ==> !IsUpper(s[i])
  }

  /** Lower-casing leaves no upper-case letter, changes nothing else than
      upper-case letters, and a second pass changes nothing. */
  lemma LowerProperties(s: string)
    ensures LowerCased(Lower(s))
    ensures forall i :: 0 <= i < |s| && !IsUpper(s[i]) ==> Lower(s)[i] == s[i]
    ensures Lower(Lower(s)) == Lower(s)
  {
  }

  // ---------------------------------------------------------------------------
  // Stripping

  /** The ASCII characters `str.strip()` removes: tab, line feed, vertical tab,
      form feed, carriage return, the separators 0x1C-0x1F, and space. */
  predicate IsSpace(c: char) {
    9 <= c as int <= 13 || 28 <= c as int <= 32
  }

  predicate Stripped(s: string) {
    s == [] || (!IsSpace(s[0]) && !IsSpace(s[|s| - 1]))
  }

  /** The number of whitespace characters at the start of s. */
  function LeadingSpace(s: string): (i: nat)
    ensures i <= |s|
    ensures forall k :: 0 <= k < i ==> IsSpace(s[k])
    ensures i < |s| ==> !IsSpace(s[i])
  {
    if s == [] || !IsSpace(s[0]) then 0 else 1 + LeadingSpace(s[1..])
  }

  /** The index just after the last non-whitespace character of s (0 if none). */
  function TrailingStart(s: string): (j: nat)
    ensures j <= |s|
    ensures forall k :: j <= k < |s| ==> IsSpace(s[k])
    ensures 0 < j ==> !IsSpace(s[j - 1])
  {
    if s == [] || !IsSpace(s[|s| - 1]) then |s| else TrailingStart(s[..|s| - 1])
  }

  /** `str.strip()`: s without its leading and trailing whitespace. */
  function Strip(s: string): (r: string)
    ensures Stripped(r)
    ensures LeadingSpace(s) + |r| <= |s|
    ensures r == s[LeadingSpace(s)..LeadingSpace(s) + |r|]
  {
    var i := LeadingSpace(s);
    if i == |s| then [] else s[i..TrailingStart(s)]
  }

  /** Strip is fully determined: cutting any whitespace-only prefix and suffix
      off s so that what remains is stripped gives Strip(s). */
  lemma StripUnique(s: string, i: nat, j: nat)
    requires i <= j <= |s|
    requires forall k :: 0 <= k < i ==> IsSpace(s[k])
    requires forall k :: j <= k < |s| ==> IsSpace(s[k])
    requires Stripped(s[i..j])
    ensures Strip(s) == s[i..j]
  {
    var a, b := LeadingSpace(s), TrailingStart(s);
    if i == j {
      assert forall k :: 0 <= k < |s| ==> IsSpace(s[k]);
      assert a == |s|;
    } else {
      assert !IsSpace(s[i]) && !IsSpace(s[j - 1]);
      assert a == i;
      assert b == j;
    }
  }

  lemma StripIdempotent(s: string)
    ensures Strip(Strip(s)) == Strip(s)
  {
    var r := Strip(s);
    StripUnique(r, 0, |r|);
    assert r[0..|r|] == r;
  }

  lemma StripKeepsLowerCase(s: string)
    requires LowerCased(s)
    ensures LowerCased(Strip(s))
  {
  }

  // ---------------------------------------------------------------------------
  // Splitting

  predicate OccursAt(s: string, sep: string, i: nat) {
    i + |sep| <= |s| && s[i..i + |sep|] == sep
  }

  predicate NoOccurrence(s: string, sep: string) {
    forall k :: 0 <= k <= |s| ==> !OccursAt(s, sep, k)
  }

  /** The leftmost occurrence of sep in s at or after `from`. */
  function FindFrom(s: string, sep: string, from: nat): (r: Option<nat>)
    requires from <= |s|
    ensures r.Some? ==> from <= r.value && OccursAt(s, sep, r.value)
    ensures r.Some? ==> forall k :: from <= k < r.value ==> !OccursAt(s, sep, k)
    ensures r.None? ==> forall k :: from <= k <= |s| ==> !OccursAt(s, sep, k)
    decreases |s| - from
  {
    if from + |sep| > |s| then None
    else if s[from..from + |sep|] == sep then Some(from)
    else FindFrom(s, sep, from + 1)
  }

  /** `sep.join(parts)`. */
  function Join(parts: seq<string>, sep: string): string {
    if parts == [] then ""
    else if |parts| == 1 then parts[0]
    else parts[0] + sep + Join(parts[1..], sep)
  }

  /** `s.split(sep)` for a non-empty separator: the pieces between the
      occurrences of sep found left to right. Joining them with sep gives s
      back, and no piece contains sep. */
  function Split(s: string, sep: string): (r: seq<string>)
    requires |sep| > 0
    ensures |r| >= 1
    ensures Join(r, sep) == s
    ensures forall k :: 0 <= k < |r| ==> NoOccurrence(r[k], sep)
    decreases |s|
  {
    match FindFrom(s, sep, 0)
    case None =>
      [s]
    case Some(i) =>
      var rest := Split(s[i + |sep|..], sep);
      SplitStep(s, sep, i, rest);
      BeforeFirst(s, sep, i);
      [s[..i]] + rest
  }

  /** One step of Split: the text before the first occurrence, the separator
      and the pieces of the remainder join back into s. */
  lemma SplitStep(s: string, sep: string, i: nat, rest: seq<string>)
    requires |sep| > 0 && OccursAt(s, sep, i)
    requires |rest| >= 1 && Join(rest, sep) == s[i + |sep|..]
    ensures Join([s[..i]] + rest, sep) == s
  {
    var head := s[..i];
    assert ([head] + rest)[1..] == rest;
    calc {
      Join([head] + rest, sep);
      head + sep + Join(rest, sep);
      s[..i] + s[i..i + |sep|] + s[i + |sep|..];
      { assert s[..i] + s[i..i + |sep|] == s[..i + |sep|]; }
      s[..i + |sep|] + s[i + |sep|..];
    }
    assert s[..i + |sep|] + s[i + |sep|..] == s;
  }

  /** The text before the first occurrence of sep does not contain sep. */
  lemma BeforeFirst(s: string, sep: string, i: nat)
    requires |sep| > 0 && i <= |s|
    requires forall k :: 0 <= k < i ==> !OccursAt(s, sep, k)
    ensures NoOccurrence(s[..i], sep)
  {
    var head := s[..i];
    forall k | 0 <= k <= |head| ensures !OccursAt(head, sep, k) {
      if OccursAt(head, sep, k) {
        assert k < i;
        assert head[k..k + |sep|] == s[k..k + |sep|];
        assert OccursAt(s, sep, k);
      }
    }
  }

  /** The number of positions at which sep occurs in s. */
  function Occurrences(s: string, sep: string): nat
    requires |sep| > 0
    decreases |s|
  {
    if |s| < |sep| then 0
    else (if s[..|sep|] == sep then 1 else 0) + Occurrences(s[1..], sep)
  }

  /** A separator of one character, or of two different characters, cannot
      overlap itself; ", " and "," are both of this kind. */
  predicate NonOverlapping(sep: string) {
    |sep| == 1 || (|sep| == 2 && sep[0] != sep[1])
  }

  lemma {:induction false} OccurrencesSkip(s: string, sep: string, i: nat)
    requires |sep| > 0 && i <= |s|
    requires forall k :: 0 <= k < i ==> !OccursAt(s, sep, k)
    ensures Occurrences(s, sep) == Occurrences(s[i..], sep)
    decreases i
  {
    if i == 0 {
      assert s[0..] == s;
    } else if |s| < |sep| {
      assert |s[i..]| < |sep|;
    } else {
      assert !OccursAt(s, sep, 0);
      assert s[..|sep|] != sep;
      NoOccurrenceShift(s, sep, i);
      OccurrencesSkip(s[1..], sep, i - 1);
      assert s[1..][i - 1..] == s[i..];
    }
  }

  lemma NoOccurrenceShift(s: string, sep: string, i: nat)
    requires 0 < i <= |s|
    requires forall k :: 0 <= k < i ==> !OccursAt(s, sep, k)
    ensures forall k :: 0 <= k < i - 1 ==> !OccursAt(s[1..], sep, k)
  {
    forall k | 0 <= k < i - 1 ensures !OccursAt(s[1..], sep, k) {
      assert !OccursAt(s, sep, k + 1);
      if k + |sep| <= |s[1..]| {
        assert s[1..][k..k + |sep|] == s[k + 1..k + 1 + |sep|];
      }
    }
  }

  /** Splitting on a separator that cannot overlap itself gives one more piece
      than there are occurrences of the separator. */
  lemma {:induction false} SplitCount(s: string, sep: string)
    requires NonOverlapping(sep)
    ensures |Split(s, sep)| == Occurrences(s, sep) + 1
    decreases |s|
  {
    match FindFrom(s, sep, 0)
    case None =>
      OccurrencesSkip(s, sep, |s|);
      assert |s[|s|..]| < |sep|;
    case Some(i) =>
      var rest := s[i + |sep|..];
      OccurrencesSkip(s, sep, i);
      var t := s[i..];
      assert t[..|sep|] == sep;
      SplitCount(rest, sep);
      if |sep| == 1 {
        assert t[1..] == rest;
      } else {
        var u := t[1..];
        assert u[0] == sep[1];
        assert u[1..] == rest;
        if |u| >= |sep| {
          assert u[..|sep|] != sep;
        }
      }
  }

  // ---------------------------------------------------------------------------
  // Lower-casing does not create or destroy separators made of characters
  // that have no case.

  predicate CaseFree(sep: string) {
    forall i :: 0 <= i < |sep| ==> !IsUpper(sep[i]) && !('a' <= sep[i] <= 'z')
  }

  lemma {:induction false} LowerOccurrences(s: string, sep: string)
    requires |sep| > 0 && CaseFree(sep)
    ensures Occurrences(Lower(s), sep) == Occurrences(s, sep)
    decreases |s|
  {
    if |s| >= |sep| {
      var l := Lower(s);
      assert (l[..|sep|] == sep) == (s[..|sep|] == sep) by {
        if s[..|sep|] == sep {
          assert forall k :: 0 <= k < |sep| ==> l[k] == sep[k];
        }
        if l[..|sep|] == sep {
          assert forall k :: 0 <= k < |sep| ==> s[k] == sep[k] by {
            forall k | 0 <= k < |sep| ensures s[k] == sep[k] {
              assert LowerChar(s[k]) == sep[k];
            }
          }
        }
      }
      assert l[1..] == Lower(s[1..]);
      LowerOccurrences(s[1..], sep);
    }
  }

  // ---------------------------------------------------------------------------
  // The two label parsers

  const LabelSeparator: string := ", "

  const FileSeparator: string := ","

  /** `IRRProcessor._process_labels`: lower-case the whole string, split it on
      ", " and strip every piece. There is one token more than there are
      occurrences of ", " in the raw text (so never zero tokens), and every
      token is lower-case and stripped. */
  function ProcessLabels(labels: string): (tokens: seq<string>)
    ensures |tokens| == Occurrences(labels, LabelSeparator) + 1
    ensures forall t :: t in tokens ==> Stripped(t) && LowerCased(t)
  {
    var pieces := Split(Lower(labels), LabelSeparator);
    PiecesOfLabels(labels);
    seq(|pieces|, i requires 0 <= i < |pieces| => Strip(pieces[i]))
  }

  /** The pieces `_process_labels` strips: one more than the occurrences of
      ", ", each lower-case, so each stripped piece is lower-case and stripped. */
  lemma PiecesOfLabels(labels: string)
    ensures var pieces := Split(Lower(labels), LabelSeparator);
      && |pieces| == Occurrences(labels, LabelSeparator) + 1
      && forall i :: 0 <= i < |pieces| ==> Stripped(Strip(pieces[i])) && LowerCased(Strip(pieces[i]))
  {
    var pieces := Split(Lower(labels), LabelSeparator);
    assert |pieces| == Occurrences(labels, LabelSeparator) + 1 by {
      SplitCount(Lower(labels), LabelSeparator);
      LowerOccurrences(labels, LabelSeparator);
    }
    forall i | 0 <= i < |pieces| ensures LowerCased(Strip(pieces[i])) {
      assert LowerCased(pieces[i]) by {
        LowerProperties(labels);
        LowerPiece(Lower(labels), LabelSeparator, i);
      }
      StripKeepsLowerCase(pieces[i]);
    }
  }

  /** Every piece of a split of lower-case text is lower-case. */
  lemma {:induction false} LowerPiece(s: string, sep: string, i: nat)
    requires |sep| > 0 && LowerCased(s)
    requires i < |Split(s, sep)|
    ensures LowerCased(Split(s, sep)[i])
    decreases |s|
  {
    match FindFrom(s, sep, 0)
    case None =>
    case Some(j) =>
      if i > 0 {
        LowerPiece(s[j + |sep|..], sep, i - 1);
      }
  }

  /** Text without the two-character separator ", " (such as "a,b") is one
      token. */
  lemma ProcessLabelsSingle(labels: string)
    requires NoOccurrence(labels, LabelSeparator)
    ensures ProcessLabels(labels) == [Strip(Lower(labels))]
  {
    OccurrencesSkip(labels, LabelSeparator, |labels|);
    assert |labels[|labels|..]| < |LabelSeparator|;
    assert |ProcessLabels(labels)| == 1;
    SplitCount(Lower(labels), LabelSeparator);
    LowerOccurrences(labels, LabelSeparator);
  }

  /** The empty string is one empty token. */
  lemma ProcessLabelsEmpty()
    ensures ProcessLabels("") == [""]
  {
    ProcessLabelsSingle("");
  }

  /** "a,b", which has a comma but not ", ", is one token. */
  lemma ProcessLabelsComma()
    ensures ProcessLabels("a,b") == ["a,b"]
  {
    assert NoOccurrence("a,b", LabelSeparator) by {
      forall k | 0 <= k <= 3 ensures !OccursAt("a,b", LabelSeparator, k) {
        if k + 2 <= 3 {
          assert "a,b"[k..k + 2][1] != LabelSeparator[1];
        }
      }
    }
    ProcessLabelsSingle("a,b");
    assert Lower("a,b") == "a,b";
    assert Strip("a,b") == "a,b" by {
      StripUnique("a,b", 0, 3);
      assert "a,b"[0..3] == "a,b";
    }
  }

  lemma ProcessLabelsOneLabel()
    ensures ProcessLabels("a") == ["a"]
  {
    ProcessLabelsSingle("a");
    assert Lower("a") == "a";
    assert Strip("a") == "a" by {
      StripUnique("a", 0, 1);
      assert "a"[0..1] == "a";
    }
  }

  lemma ProcessLabelsTwoLabels()
    ensures ProcessLabels("a, b") == ["a", "b"]
  {
    SplitTwoLabels();
    StripLetter('a');
    StripLetter('b');
  }

  lemma StripLetter(c: char)
    requires !IsSpace(c)
    ensures Strip([c]) == [c]
  {
    StripUnique([c], 0, 1);
    assert [c][0..1] == [c];
  }

  lemma SplitTwoLabels()
    ensures Split(Lower("a, b"), LabelSeparator) == ["a", "b"]
  {
    assert Lower("a, b") == "a, b";
    assert FindFrom("a, b", LabelSeparator, 0) == Some(1) by {
      assert "a, b"[0..2] != LabelSeparator;
      assert "a, b"[1..3] == LabelSeparator;
    }
    assert "a, b"[3..] == "b";
    assert Split("b", LabelSeparator) == ["b"] by {
      assert FindFrom("b", LabelSeparator, 0) == None;
    }
  }

  /** The expression of `process_all_labels_file` applied to the text of the
      label file: split on ",", then lower-case and strip every piece. */
  function ParseLabelsFile(text: string): (labels: seq<string>)
    ensures |labels| == Occurrences(text, FileSeparator) + 1
    ensures forall t :: t in labels ==> Stripped(t) && LowerCased(t)
  {
    var pieces := Split(text, FileSeparator);
    PiecesOfFile(text);
    seq(|pieces|, i requires 0 <= i < |pieces| => Strip(Lower(pieces[i])))
  }

  /** The pieces of the label file: one more than the commas, and each one
      lower-cased and stripped is lower-case and stripped. */
  lemma PiecesOfFile(text: string)
    ensures var pieces := Split(text, FileSeparator);
      && |pieces| == Occurrences(text, FileSeparator) + 1
      && forall i :: 0 <= i < |pieces| ==> Stripped(Strip(Lower(pieces[i]))) && LowerCased(Strip(Lower(pieces[i])))
  {
    var pieces := Split(text, FileSeparator);
    SplitCount(text, FileSeparator);
    forall i | 0 <= i < |pieces| ensures LowerCased(Strip(Lower(pieces[i]))) {
      LowerProperties(pieces[i]);
      StripKeepsLowerCase(Lower(pieces[i]));
    }
  }
}
