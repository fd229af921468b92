/**
 * The parts of Go's `strings` package (and Go's string `<`) that the build-asset
 * summary relies on. Go strings are byte strings; here a string is a sequence of
 * characters, and the order of characters by code point is the order of their
 * UTF-8 encodings, so `Less` agrees with Go's byte-wise comparison.
 */
module Strings {

  predicate HasPrefix(s: string, prefix: string) {
    |prefix| <= |s| && s[..|prefix|] == prefix
  }

  predicate HasSuffix(s: string, suffix: string) {
    |suffix| <= |s| && s[|s| - |suffix|..] == suffix
  }

  /** strings.TrimPrefix: removes `prefix` once, if `s` starts with it. */
  function TrimPrefix(s: string, prefix: string): (r: string)
    ensures HasPrefix(s, prefix) ==> prefix + r == s
    ensures !HasPrefix(s, prefix) ==> r == s
  {
    if HasPrefix(s, prefix) then s[|prefix|..] else s
  }

  /** strings.TrimSuffix: removes `suffix` once, if `s` ends with it. */
  function TrimSuffix(s: string, suffix: string): (r: string)
    ensures HasSuffix(s, suffix) ==> r + suffix == s
    ensures !HasSuffix(s, suffix) ==> r == s
  {
    if HasSuffix(s, suffix) then s[..|s| - |suffix|] else s
  }

  /** bytes.IndexByte, as bufio.ScanLines uses it: the first position of `c`, or -1. */
  function IndexOf(s: string, c: char): (i: int)
    ensures -1 <= i < |s|
    ensures i == -1 <==> c !in s
    ensures 0 <= i ==> s[i] == c && c !in s[..i]
  {
    if |s| == 0 then -1
    else if s[0] == c then 0
    else
      var j := IndexOf(s[1..], c);
      assert s[1..][..j + 1] == s[1..j + 2] by { }
      if j == -1 then -1 else j + 1
  }

  /** strings.LastIndex with a one-character separator: the last position of `c`, or -1. */
  function LastIndexOf(s: string, c: char): (i: int)
    ensures -1 <= i < |s|
    ensures i == -1 <==> c !in s
    ensures 0 <= i ==> s[i] == c && c !in s[i + 1..]
  {
    if |s| == 0 then -1
    else if s[|s| - 1] == c then |s| - 1
    else LastIndexOf(s[..|s| - 1], c)
  }

  /** Joins `parts` with `sep` between neighbours (strings.Join). */
  function Join(parts: seq<string>, sep: char): string {
    if |parts| == 0 then ""
    else if |parts| == 1 then parts[0]
    else parts[0] + [sep] + Join(parts[1..], sep)
  }

  /**
   * strings.Split with a one-character separator: the pieces between separators.
   * The pieces contain no separator and joining them back gives `s`.
   */
  function Split(s: string, sep: char): (parts: seq<string>)
    ensures |parts| >= 1
    ensures forall i :: 0 <= i < |parts| ==> sep !in parts[i]
    ensures Join(parts, sep) == s
    ensures |parts| == 1 <==> sep !in s
    decreases |s|
  {
    var i := IndexOf(s, sep);
    if i == -1 then [s]
    else
      var rest := Split(s[i + 1..], sep);
      assert s == s[..i] + [sep] + s[i + 1..];
      [s[..i]] + rest
  }

  /** unicode.IsSpace, the separator test of strings.Fields. */
  predicate IsSpace(c: char) {
    || ('\t' <= c <= '\r')
    || c == ' '
    || c == '\U{85}'
    || c == '\U{A0}'
    || c == '\U{1680}'
    || ('\U{2000}' <= c <= '\U{200A}')
    || c == '\U{2028}'
    || c == '\U{2029}'
    || c == '\U{202F}'
    || c == '\U{205F}'
    || c == '\U{3000}'
  }

  predicate AllSpace(s: string) {
    forall i :: 0 <= i < |s| ==> IsSpace(s[i])
  }

  predicate NoSpace(s: string) {
    forall i :: 0 <= i < |s| ==> !IsSpace(s[i])
  }

  /** A field: a non-empty run of non-space characters. */
  predicate IsWord(w: string) {
    w != "" && NoSpace(w)
  }

  /** Length of the leading run of characters of `s` that are spaces exactly when `space` is. */
  function Span(s: string, space: bool): (n: nat)
    ensures n <= |s|
    ensures forall i :: 0 <= i < n ==> IsSpace(s[i]) == space
    ensures n < |s| ==> IsSpace(s[n]) != space
  {
    if |s| == 0 || IsSpace(s[0]) != space then 0 else 1 + Span(s[1..], space)
  }

  /** The characters of `s` that are not spaces, in order. */
  function RemoveSpace(s: string): string {
    if |s| == 0 then ""
    else (if IsSpace(s[0]) then "" else [s[0]]) + RemoveSpace(s[1..])
  }

  function Concat(parts: seq<string>): string {
    if |parts| == 0 then "" else parts[0] + Concat(parts[1..])
  }

  /**
   * strings.Fields: the maximal runs of non-space characters of `s`.
   * Each field is non-empty and space-free, and there are none exactly when
   * `s` is all space.
   */
  function Fields(s: string): (fields: seq<string>)
    ensures forall i :: 0 <= i < |fields| ==> IsWord(fields[i])
    ensures fields == [] <==> AllSpace(s)
    decreases |s|
  {
    var lead := Span(s, true);
    if lead == |s| then []
    else
      var end := WordEnd(s, lead);
      [s[lead..end]] + Fields(s[end..])
  }

  /** Where the field starting at `lead` ends: just past its last non-space character. */
  function WordEnd(s: string, lead: nat): (end: nat)
    requires lead == Span(s, true) < |s|
    ensures lead < end <= |s|
    ensures IsWord(s[lead..end])
    ensures end < |s| ==> IsSpace(s[end])
    ensures !AllSpace(s)
  {
    var t := s[lead..];
    assert t[0] == s[lead] && !IsSpace(s[lead]);
    var w := Span(t, false);
    assert forall i :: 0 <= i < w ==> s[lead..lead + w][i] == t[i];
    lead + w
  }

  /** Together the fields hold every non-space character of `s`, in order. */
  lemma {:induction false} FieldsKeepText(s: string)
    ensures Concat(Fields(s)) == RemoveSpace(s)
    decreases |s|
  {
    var lead := Span(s, true);
    if lead == |s| {
      RemoveSpaceOfAllSpace(s);
    } else {
      var end := WordEnd(s, lead);
      var word, rest := s[lead..end], s[end..];
      FieldsKeepText(rest);
      assert Fields(s) == [word] + Fields(rest);
      ConcatCons(word, Fields(rest));
      RemoveSpaceAround(s, lead, end);
    }
  }

  lemma ConcatCons(head: string, tail: seq<string>)
    ensures Concat([head] + tail) == head + Concat(tail)
  {
    assert ([head] + tail)[1..] == tail;
  }

  /** Removing the spaces of `s` keeps the space-free middle of a space/word/rest split. */
  lemma RemoveSpaceAround(s: string, lead: nat, end: nat)
    requires lead <= end <= |s|
    requires AllSpace(s[..lead]) && NoSpace(s[lead..end])
    ensures RemoveSpace(s) == s[lead..end] + RemoveSpace(s[end..])
  {
    SliceParts(s, lead, end);
    RemoveSpaceOfField(s[..lead], s[lead..end], s[end..]);
  }

  lemma SliceParts(s: string, i: nat, j: nat)
    requires i <= j <= |s|
    ensures s == s[..i] + s[i..j] + s[j..]
  {
  }

  lemma RemoveSpaceOfField(lead: string, word: string, rest: string)
    requires AllSpace(lead) && NoSpace(word)
    ensures RemoveSpace(lead + word + rest) == word + RemoveSpace(rest)
  {
    var tail := word + rest;
    assert lead + word + rest == lead + tail;
    calc {
      RemoveSpace(lead + tail);
      { RemoveSpaceAppend(lead, tail); }
      RemoveSpace(lead) + RemoveSpace(tail);
      { RemoveSpaceOfAllSpace(lead); }
      RemoveSpace(tail);
      { RemoveSpaceAppend(word, rest); RemoveSpaceOfNoSpace(word); }
      word + RemoveSpace(rest);
    }
  }

  lemma {:induction false} RemoveSpaceAppend(a: string, b: string)
    ensures RemoveSpace(a + b) == RemoveSpace(a) + RemoveSpace(b)
    decreases |a|
  {
    if |a| > 0 {
      assert (a + b)[1..] == a[1..] + b;
      RemoveSpaceAppend(a[1..], b);
    } else {
      assert a + b == b;
    }
  }

  lemma {:induction false} RemoveSpaceOfAllSpace(s: string)
    requires AllSpace(s)
    ensures RemoveSpace(s) == ""
    decreases |s|
  {
    if |s| > 0 { RemoveSpaceOfAllSpace(s[1..]); }
  }

  lemma {:induction false} RemoveSpaceOfNoSpace(s: string)
    requires NoSpace(s)
    ensures RemoveSpace(s) == s
    decreases |s|
  {
    if |s| > 0 {
      RemoveSpaceOfNoSpace(s[1..]);
      assert s == [s[0]] + s[1..];
    }
  }

  /**
   * The first field of a line is its first word: after any leading spaces,
   * a run of non-space characters ended by a space or by the end of the line.
   */
  lemma FirstField(lead: string, word: string, rest: string)
    requires AllSpace(lead) && word != "" && NoSpace(word)
    requires rest == "" || IsSpace(rest[0])
    ensures Fields(lead + word + rest) != []
    ensures Fields(lead + word + rest)[0] == word
  {
    var s := lead + word + rest;
    var t := word + rest;
    assert s == lead + t;
    assert forall i :: 0 <= i < |lead| ==> s[i] == lead[i];
    assert s[|lead|] == word[0];
    SpanStops(s, |lead|, true);
    assert s[|lead|..] == t;
    assert forall i :: 0 <= i < |word| ==> t[i] == word[i];
    assert rest != "" ==> t[|word|] == rest[0];
    SpanStops(t, |word|, false);
    assert s[|lead|..|lead| + |word|] == word;
  }

  /** A run of `n` characters, spaces exactly when `space` is, stopped by the end or by a change, is the span. */
  lemma {:induction false} SpanStops(s: string, n: nat, space: bool)
    requires n <= |s|
    requires forall i :: 0 <= i < n ==> IsSpace(s[i]) == space
    requires n < |s| ==> IsSpace(s[n]) != space
    ensures Span(s, space) == n
    decreases n
  {
    if n > 0 {
      assert forall i :: 0 <= i < n - 1 ==> s[1..][i] == s[i + 1];
      SpanStops(s[1..], n - 1, space);
    }
  }

  /**
   * Go's `<` on strings: lexicographic order, with a proper prefix before the
   * longer string.
   */
  predicate Less(a: string, b: string)
    decreases |a|
  {
    |b| > 0 && (|a| == 0 || a[0] < b[0] || (a[0] == b[0] && Less(a[1..], b[1..])))
  }

  /** The reflexive closure of `Less`, written as Go's `!(b < a)`. */
  predicate LessEq(a: string, b: string) {
    !Less(b, a)
  }

  lemma {:induction false} LessIrreflexive(a: string)
    ensures !Less(a, a)
    decreases |a|
  {
    if |a| > 0 { LessIrreflexive(a[1..]); }
  }

  lemma {:induction false} LessAsymmetric(a: string, b: string)
    requires Less(a, b)
    ensures !Less(b, a)
    decreases |a|
  {
    if |a| > 0 && a[0] == b[0] { LessAsymmetric(a[1..], b[1..]); }
  }

  lemma {:induction false} LessTransitive(a: string, b: string, c: string)
    requires Less(a, b) && Less(b, c)
    ensures Less(a, c)
    decreases |a|
  {
    if |a| > 0 && a[0] == b[0] && b[0] == c[0] {
      LessTransitive(a[1..], b[1..], c[1..]);
    }
  }

  lemma {:induction false} LessTotal(a: string, b: string)
    ensures a == b || Less(a, b) || Less(b, a)
    decreases |a|
  {
    if |a| > 0 && |b| > 0 && a[0] == b[0] {
      LessTotal(a[1..], b[1..]);
      if a[1..] == b[1..] {
        assert a == [a[0]] + a[1..] && b == [b[0]] + b[1..];
      }
    }
  }

  /** `LessEq` is a total preorder, indeed a total order: the sort key of the manifest. */
  lemma LessEqTransitive(a: string, b: string, c: string)
    requires LessEq(a, b) && LessEq(b, c)
    ensures LessEq(a, c)
  {
    LessTotal(a, b);
    LessTotal(b, c);
    if a != b && b != c { LessTransitive(a, b, c); LessAsymmetric(a, c); }
    else if a == b && b != c { LessAsymmetric(b, c); }
    else if a != b { LessAsymmetric(a, b); }
    else { LessIrreflexive(a); }
  }

  /** The empty string comes before every other string and nothing comes before it. */
  lemma EmptyIsLeast(a: string)
    ensures LessEq("", a)
    ensures LessEq(a, "") <==> a == ""
  {
    if a == "" { LessIrreflexive(a); }
  }
}
