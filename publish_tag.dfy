/**
 * The publish-tag rewrite of the release settings file (`updatePublishTag`).
 *
 * The source replaces, globally, every match of the regular expression
 * "publishTag":".*?" by the template "publishTag":"<tag>".  A JavaScript
 * global replace scans the text from left to right; at each position it tries
 * the pattern, and after a match it resumes right after it.  In the pattern,
 * `.` matches any character except the four line terminators, and the lazy
 * `.*?` stops at the first quote it reaches.  The template is itself subject
 * to the `$` patterns of String.prototype.replace.
 */
module PublishTag {

  datatype Option<T> = None | Some(value: T)

  /** The literal head of the pattern: `"publishTag":"`. */
  const Prefix: string := "\"publishTag\":\""

  /** The characters that `.` does not match in a JavaScript regular expression. */
  predicate IsLineTerminator(c: char) {
    c == '\n' || c == '\r' || c == '\U{2028}' || c == '\U{2029}'
  }

  /** A character that can sit inside a matched value: not a quote, not a line terminator. */
  predicate IsValueChar(c: char) {
    c != '"' && !IsLineTerminator(c)
  }

  /**
   * f is one whole match of the pattern: the prefix, a run of value
   * characters, and the closing quote.
   */
  predicate IsField(f: string) {
    && |Prefix| < |f|
    && f[..|Prefix|] == Prefix
    && f[|f| - 1] == '"'
    && forall k :: |Prefix| <= k < |f| - 1 ==> IsValueChar(f[k])
  }

  /** Some stretch of the text is a match of the pattern. */
  predicate HasField(text: string) {
    exists p, n :: 0 <= p < n <= |text| && IsField(text[p..n])
  }

  /** A tag that can be written as a value and read back as one: `dev`, `latest`. */
  predicate IsSafeTag(tag: string) {
    forall k :: 0 <= k < |tag| ==> IsValueChar(tag[k]) && tag[k] != '$'
  }

  /**
   * The pattern run as a backtracking matcher would, from position k of w:
   * first the prefix character by character, then the lazy `.*?` up to the
   * first quote.  The result is the end of the match.
   */
  function MatchFrom(w: string, k: nat): (r: Option<nat>)
    ensures r.Some? ==> k < r.value <= |w| && |Prefix| < r.value
    decreases |w| - k
  {
    if |w| <= k then None
    else if k < |Prefix| then (if w[k] == Prefix[k] then MatchFrom(w, k + 1) else None)
    else if w[k] == '"' then Some(k + 1)
    else if IsLineTerminator(w[k]) then None
    else MatchFrom(w, k + 1)
  }

  /** The length of the match of the pattern at the very start of w, if any (see FieldLenExact). */
  function FieldLen(w: string): (r: Option<nat>)
    ensures r.Some? ==> |Prefix| < r.value <= |w|
  {
    MatchFrom(w, 0)
  }

  /**
   * The replacement text of one match: `tpl` with the `$` patterns of
   * String.prototype.replace substituted.  The pattern has no capture
   * groups, so `$1`, `$<` and the like stay as they are.
   */
  function Expand(tpl: string, matched: string, before: string, after: string): (r: string)
    ensures '$' !in tpl ==> r == tpl
    decreases |tpl|
  {
    if tpl == [] then []
    else if tpl[0] == '$' && 2 <= |tpl| && tpl[1] == '$' then "$" + Expand(tpl[2..], matched, before, after)
    else if tpl[0] == '$' && 2 <= |tpl| && tpl[1] == '&' then matched + Expand(tpl[2..], matched, before, after)
    else if tpl[0] == '$' && 2 <= |tpl| && tpl[1] == '`' then before + Expand(tpl[2..], matched, before, after)
    else if tpl[0] == '$' && 2 <= |tpl| && tpl[1] == '\'' then after + Expand(tpl[2..], matched, before, after)
    else
      assert '$' !in tpl ==> '$' !in tpl[1..];
      [tpl[0]] + Expand(tpl[1..], matched, before, after)
  }

  /** The template literal of the source: the prefix, the tag and a closing quote. */
  function Replacement(tag: string): string {
    Prefix + tag + "\""
  }

  /**
   * The global replace: `done` is the part of the original text already
   * consumed, `rest` the part still to scan.
   */
  function Scan(tpl: string, done: string, rest: string): string
    decreases |rest|
  {
    if rest == [] then []
    else match FieldLen(rest)
      case Some(n) =>
        Expand(tpl, rest[..n], done, rest[n..]) + Scan(tpl, done + rest[..n], rest[n..])
      case None =>
        [rest[0]] + Scan(tpl, done + [rest[0]], rest[1..])
  }

  /** `updatePublishTag(text, tag)`. */
  function UpdatePublishTag(text: string, tag: string): string {
    Scan(Replacement(tag), "", text)
  }

  /**
   * The same scan with the template taken literally: what the replace does
   * when the template holds no `$` (see ScanIsLiteral).
   */
  function ScanLiteral(tpl: string, rest: string): string
    decreases |rest|
  {
    if rest == [] then []
    else match FieldLen(rest)
      case Some(n) => tpl + ScanLiteral(tpl, rest[n..])
      case None => [rest[0]] + ScanLiteral(tpl, rest[1..])
  }

  /** The first position at or after p where a match starts, or |s| if none does. */
  ghost function FirstField(s: string, p: nat): (i: nat)
    requires p <= |s|
    ensures p <= i <= |s|
    ensures i < |s| ==> FieldLen(s[i..]).Some?
    ensures forall q :: p <= q < i ==> FieldLen(s[q..]).None?
    decreases |s| - p
  {
    if p == |s| || FieldLen(s[p..]).Some? then p else FirstField(s, p + 1)
  }

  // ---------------------------------------------------------------------
  // The pattern
  // ---------------------------------------------------------------------

  /** The rest of the pattern, from position k on, matches exactly w[..n]. */
  predicate MatchesFrom(w: string, k: nat, n: nat)
    requires n <= |w|
  {
    && k < n
    && |Prefix| < n
    && (forall j :: k <= j < |Prefix| ==> w[j] == Prefix[j])
    && w[n - 1] == '"'
    && (forall j :: k <= j < n - 1 && |Prefix| <= j ==> IsValueChar(w[j]))
  }

  /** The matcher started at k ends at n exactly when the rest of the pattern matches w[..n]. */
  lemma {:induction false} MatchFromExact(w: string, k: nat, n: nat)
    requires n <= |w|
    ensures MatchFrom(w, k) == Some(n) <==> MatchesFrom(w, k, n)
    decreases |w| - k
  {
    if k < |w| && k + 1 < n {
      MatchFromExact(w, k + 1, n);
    }
  }

  /**
   * FieldLen finds exactly the match of the pattern at the start of w: the
   * stretch w[..n] is a match if and only if FieldLen reports n.
   */
  lemma FieldLenExact(w: string, n: nat)
    requires n <= |w|
    ensures IsField(w[..n]) <==> FieldLen(w) == Some(n)
  {
    MatchFromExact(w, 0, n);
    if |Prefix| < n {
      var f := w[..n];
      assert forall j :: 0 <= j < n ==> f[j] == w[j];
      assert f[..|Prefix|] == Prefix <==> forall j :: 0 <= j < |Prefix| ==> w[j] == Prefix[j];
    }
  }

  /** A match found by FieldLen at position q of a text is a stretch of that text. */
  lemma FieldLenSpan(text: string, q: nat)
    requires q <= |text|
    ensures FieldLen(text[q..]).Some? ==>
              q + FieldLen(text[q..]).value <= |text| && IsField(text[q..q + FieldLen(text[q..]).value])
  {
    if FieldLen(text[q..]).Some? {
      var n := FieldLen(text[q..]).value;
      FieldLenExact(text[q..], n);
      assert text[q..][..n] == text[q..q + n];
    }
  }

  /** A match found by FieldLen starts with the prefix. */
  lemma FieldLenPrefix(text: string, i: nat)
    requires i <= |text| && FieldLen(text[i..]).Some?
    ensures i + |Prefix| <= |text| && text[i..i + |Prefix|] == Prefix
  {
    FieldLenSpan(text, i);
    var n := FieldLen(text[i..]).value;
    assert text[i..i + n][..|Prefix|] == text[i..i + |Prefix|];
  }

  /** A whole match followed by anything is matched as itself. */
  lemma FieldThenAnything(f: string, x: string)
    requires IsField(f)
    ensures FieldLen(f + x) == Some(|f|)
  {
    assert (f + x)[..|f|] == f;
    FieldLenExact(f + x, |f|);
  }

  /** The matcher depends only on w up to a quote at m - 1 past the prefix. */
  lemma {:induction false} MatchFromLocal(w: string, w2: string, k: nat, m: nat)
    requires |Prefix| < m <= |w| && m <= |w2| && k < m
    requires w[..m] == w2[..m] && w[m - 1] == '"'
    ensures MatchFrom(w, k) == MatchFrom(w2, k)
    decreases m - k
  {
    assert w[k] == w[..m][k] == w2[..m][k] == w2[k];
    if k < |Prefix| || (w[k] != '"' && !IsLineTerminator(w[k])) {
      if k + 1 < m {
        MatchFromLocal(w, w2, k + 1, m);
      }
    }
  }

  /**
   * Replacing the text from a match on by other text that also starts with
   * the prefix creates no match before it.
   */
  lemma NoFieldBeforeReplacement(text: string, i: nat, tpl: string, tail: string)
    requires i + |Prefix| <= |text| && text[i..i + |Prefix|] == Prefix
    requires |Prefix| <= |tpl| && tpl[..|Prefix|] == Prefix
    requires forall q :: 0 <= q < i ==> FieldLen(text[q..]).None?
    ensures forall q :: 0 <= q < i ==> FieldLen((text[..i] + tpl + tail)[q..]).None?
  {
    var r := text[..i] + tpl + tail;
    forall q | 0 <= q < i ensures FieldLen(r[q..]).None? {
      var m := i - q + |Prefix|;
      assert r[q..][..m] == text[q..][..m] by {
        assert r[q..][..m] == text[q..i] + tpl[..|Prefix|];
        assert text[q..][..m] == text[q..i] + text[i..i + |Prefix|];
      }
      assert text[q..][m - 1] == Prefix[|Prefix| - 1] == '"';
      MatchFromLocal(text[q..], r[q..], 0, m);
    }
  }

  /** The replacement for a safe tag is itself one whole match. */
  lemma ReplacementIsField(tag: string)
    requires IsSafeTag(tag)
    ensures IsField(Replacement(tag))
  {
  }

  /** The text written for a tag without `$` holds no `$` either, so it is inserted literally. */
  lemma NoDollarInReplacement(tag: string)
    requires '$' !in tag
    ensures '$' !in Replacement(tag)
  {
  }

  // ---------------------------------------------------------------------
  // The scan
  // ---------------------------------------------------------------------

  /** Without `$` in the template the replace is the literal scan, whatever came before. */
  lemma {:induction false} ScanIsLiteral(tpl: string, d: string, rest: string)
    requires '$' !in tpl
    ensures Scan(tpl, d, rest) == ScanLiteral(tpl, rest)
    decreases |rest|
  {
    if rest != [] {
      match FieldLen(rest)
      case Some(n) => ScanIsLiteral(tpl, d + rest[..n], rest[n..]);
      case None => ScanIsLiteral(tpl, d + [rest[0]], rest[1..]);
    }
  }

  /** A text with no match at any position is copied through unchanged, whatever the template. */
  lemma {:induction false} ScanWithoutMatch(tpl: string, d: string, s: string)
    requires forall q :: 0 <= q < |s| ==> FieldLen(s[q..]).None?
    ensures Scan(tpl, d, s) == s
    decreases |s|
  {
    if s != [] {
      assert s[0..] == s;
      var t := s[1..];
      forall q | 0 <= q < |t| ensures FieldLen(t[q..]).None? {
        assert t[q..] == s[q + 1..];
      }
      ScanWithoutMatch(tpl, d + [s[0]], t);
    }
  }

  /** Text before the first match is copied through unchanged. */
  lemma {:induction false} ScanKeepsPlainText(tpl: string, s: string, i: nat)
    requires i <= |s|
    requires forall q :: 0 <= q < i ==> FieldLen(s[q..]).None?
    ensures ScanLiteral(tpl, s) == s[..i] + ScanLiteral(tpl, s[i..])
    decreases i
  {
    if i == 0 {
      assert s[..0] == [] && s[0..] == s;
    } else {
      var t := s[1..];
      assert FieldLen(s[0..]).None? && s[0..] == s;
      assert ScanLiteral(tpl, s) == [s[0]] + ScanLiteral(tpl, t);
      forall q | 0 <= q < i - 1 ensures FieldLen(t[q..]).None? {
        assert t[q..] == s[q + 1..];
      }
      ScanKeepsPlainText(tpl, t, i - 1);
      assert [s[0]] + t[..i - 1] == s[..i];
      assert t[i - 1..] == s[i..];
    }
  }

  /** With no match anywhere the literal scan is the identity. */
  lemma ScanLiteralWithoutMatch(tpl: string, s: string)
    requires forall q :: 0 <= q < |s| ==> FieldLen(s[q..]).None?
    ensures ScanLiteral(tpl, s) == s
  {
    ScanKeepsPlainText(tpl, s, |s|);
    assert s[..|s|] == s && s[|s|..] == [];
  }

  /** The leftmost match, found by FieldLen at position i, is replaced and the scan resumes after it. */
  lemma ReplaceAt(s: string, tpl: string, i: nat)
    requires i < |s| && FieldLen(s[i..]).Some?
    requires forall q :: 0 <= q < i ==> FieldLen(s[q..]).None?
    ensures i + FieldLen(s[i..]).value <= |s|
    ensures ScanLiteral(tpl, s) == s[..i] + tpl + ScanLiteral(tpl, s[i + FieldLen(s[i..]).value..])
  {
    var n := FieldLen(s[i..]).value;
    ScanKeepsPlainText(tpl, s, i);
    assert s[i..][n..] == s[i + n..];
  }

  /** ReplaceAt for a match known to end at n. */
  lemma ReplaceSpan(s: string, tpl: string, i: nat, n: nat)
    requires i < n <= |s| && FieldLen(s[i..]) == Some(n - i)
    requires forall q :: 0 <= q < i ==> FieldLen(s[q..]).None?
    ensures ScanLiteral(tpl, s) == s[..i] + tpl + ScanLiteral(tpl, s[n..])
  {
    ReplaceAt(s, tpl, i);
  }

  /**
   * After a pass with a template that is itself a whole match, the leftmost
   * match is still at i, now the template, and nothing before it matches.
   */
  lemma FirstPassShape(text: string, tpl: string, i: nat)
    requires IsField(tpl)
    requires i < |text| && FieldLen(text[i..]).Some?
    requires forall q :: 0 <= q < i ==> FieldLen(text[q..]).None?
    ensures i + FieldLen(text[i..]).value <= |text|
    ensures ScanLiteral(tpl, text) == text[..i] + tpl + ScanLiteral(tpl, text[i + FieldLen(text[i..]).value..])
    ensures forall q :: 0 <= q < i ==> FieldLen(ScanLiteral(tpl, text)[q..]).None?
  {
    ReplaceAt(text, tpl, i);
    FieldLenPrefix(text, i);
    NoFieldBeforeReplacement(text, i, tpl, ScanLiteral(tpl, text[i + FieldLen(text[i..]).value..]));
  }

  /** In a text that has a whole match at i and no match before, the second pass sees that match first. */
  lemma SecondPassAt(s: string, tpl1: string, tail: string, tpl2: string, i: nat)
    requires IsField(tpl1) && i <= |s|
    requires forall q :: 0 <= q < i ==> FieldLen((s[..i] + tpl1 + tail)[q..]).None?
    ensures ScanLiteral(tpl2, s[..i] + tpl1 + tail) == s[..i] + tpl2 + ScanLiteral(tpl2, tail)
  {
    var r := s[..i] + tpl1 + tail;
    assert r[i..] == tpl1 + tail;
    FieldThenAnything(tpl1, tail);
    ReplaceAt(r, tpl2, i);
    assert r[..i] == s[..i];
    assert r[i + |tpl1|..] == tail;
  }

  /** The inductive step of ScanOverwrites, at the leftmost match. */
  lemma OverwriteStep(text: string, tpl1: string, tpl2: string, i: nat)
    requires IsField(tpl1)
    requires i < |text| && FieldLen(text[i..]).Some?
    requires forall q :: 0 <= q < i ==> FieldLen(text[q..]).None?
    requires var rest := text[i + FieldLen(text[i..]).value..];
             ScanLiteral(tpl2, ScanLiteral(tpl1, rest)) == ScanLiteral(tpl2, rest)
    ensures ScanLiteral(tpl2, ScanLiteral(tpl1, text)) == ScanLiteral(tpl2, text)
  {
    var n := FieldLen(text[i..]).value;
    var tail := ScanLiteral(tpl1, text[i + n..]);
    FirstPassShape(text, tpl1, i);
    SecondPassAt(text, tpl1, tail, tpl2, i);
    ReplaceAt(text, tpl2, i);
  }

  /**
   * Scanning with a template that is a whole match and then with any
   * template gives the same text as the second scan alone.
   */
  lemma {:induction false} ScanOverwrites(text: string, tpl1: string, tpl2: string)
    requires IsField(tpl1)
    ensures ScanLiteral(tpl2, ScanLiteral(tpl1, text)) == ScanLiteral(tpl2, text)
    decreases |text|, 1
  {
    var i := FirstField(text, 0);
    if i == |text| {
      ScanLiteralWithoutMatch(tpl1, text);
    } else {
      OverwriteFrom(text, tpl1, tpl2, i);
    }
  }

  /** ScanOverwrites for a text whose leftmost match is at i. */
  lemma {:induction false} OverwriteFrom(text: string, tpl1: string, tpl2: string, i: nat)
    requires IsField(tpl1)
    requires i < |text| && FieldLen(text[i..]).Some?
    requires forall q :: 0 <= q < i ==> FieldLen(text[q..]).None?
    ensures ScanLiteral(tpl2, ScanLiteral(tpl1, text)) == ScanLiteral(tpl2, text)
    decreases |text|, 0
  {
    var n := FieldLen(text[i..]).value;
    ScanOverwrites(text[i + n..], tpl1, tpl2);
    OverwriteStep(text, tpl1, tpl2, i);
  }

  // ---------------------------------------------------------------------
  // What updatePublishTag does
  // ---------------------------------------------------------------------

  /** A text with no match of the pattern comes back unchanged, whatever the tag. */
  lemma UnchangedWithoutField(text: string, tag: string)
    requires !HasField(text)
    ensures UpdatePublishTag(text, tag) == text
  {
    forall q | 0 <= q < |text| ensures FieldLen(text[q..]).None? {
      FieldLenSpan(text, q);
    }
    ScanWithoutMatch(Replacement(tag), "", text);
  }

  /**
   * Everything before the leftmost match is kept as it is, the match with
   * its old value becomes the template holding the tag, and the rest of the
   * text is rewritten the same way.
   */
  lemma LeftmostFieldReplaced(text: string, tag: string, i: nat, n: nat)
    requires '$' !in tag
    requires i < n <= |text| && IsField(text[i..n])
    requires forall p, m :: 0 <= p < i && p < m <= |text| ==> !IsField(text[p..m])
    ensures UpdatePublishTag(text, tag) == text[..i] + Replacement(tag) + UpdatePublishTag(text[n..], tag)
  {
    forall q | 0 <= q < i ensures FieldLen(text[q..]).None? {
      FieldLenSpan(text, q);
    }
    assert text[i..][..n - i] == text[i..n];
    FieldLenExact(text[i..], n - i);
    var tpl := Replacement(tag);
    NoDollarInReplacement(tag);
    ReplaceSpan(text, tpl, i, n);
    ScanIsLiteral(tpl, "", text);
    ScanIsLiteral(tpl, "", text[n..]);
  }

  /** The result is empty exactly when the text is: the `|| text` fallback never applies to a non-empty text. */
  lemma UpdateEmptyIff(text: string, tag: string)
    ensures UpdatePublishTag(text, tag) == [] <==> text == []
  {
  }

  /**
   * Rewriting with one safe tag and then with another gives the same text as
   * rewriting with the second alone: the first pass leaves every match where
   * it was, holding the first tag.
   */
  lemma UpdateOverwrites(text: string, t1: string, t2: string)
    requires IsSafeTag(t1) && '$' !in t2
    ensures UpdatePublishTag(UpdatePublishTag(text, t1), t2) == UpdatePublishTag(text, t2)
  {
    assert '$' !in t1;
    NoDollarInReplacement(t1);
    NoDollarInReplacement(t2);
    ReplacementIsField(t1);
    ScanOverwrites(text, Replacement(t1), Replacement(t2));
    ScanIsLiteral(Replacement(t1), "", text);
    ScanIsLiteral(Replacement(t2), "", text);
    ScanIsLiteral(Replacement(t2), "", UpdatePublishTag(text, t1));
  }

  /** Rewriting twice with the same safe tag is the same as rewriting once. */
  lemma UpdateIdempotent(text: string, tag: string)
    requires IsSafeTag(tag)
    ensures UpdatePublishTag(UpdatePublishTag(text, tag), tag) == UpdatePublishTag(text, tag)
  {
    UpdateOverwrites(text, tag, tag);
  }
}
