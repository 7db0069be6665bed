/** The text-cleaning engine of text/src/lib.rs: the Japanese-text test `is_jp` and the
    `Cleaner`, whose `clean` runs the substitution rules and the repetition collapse. */
module Text {
  import opened Wrappers
  import opened Config
  import Utf8

  // ---------------------------------------------------------------------------
  // is_jp
  // ---------------------------------------------------------------------------

  /** A character in one of the six inclusive ranges `is_jp` accepts: CJK punctuation,
      hiragana, katakana, full-width roman forms, common kanji and rare kanji. */
  predicate IsJpChar(c: char)
  {
    var n := c as int;
    (0x3000 <= n <= 0x303F) ||
    (0x3040 <= n <= 0x309F) ||
    (0x30A0 <= n <= 0x30FF) ||
    (0xFF00 <= n <= 0xFFEF) ||
    (0x4E00 <= n <= 0x9FAF) ||
    (0x3400 <= n <= 0x4DBF)
  }

  /** `is_jp`: whether any character of `text` is Japanese, scanning from the front. */
  predicate IsJp(text: string)
  {
    text != [] && (IsJpChar(text[0]) || IsJp(text[1..]))
  }

  /** `is_jp` holds exactly when some character lies in one of the ranges. */
  lemma {:induction false} IsJpIff(text: string)
    ensures IsJp(text) <==> exists i :: 0 <= i < |text| && IsJpChar(text[i])
  {
    if text != [] {
      IsJpIff(text[1..]);
      if IsJp(text[1..]) {
        var i :| 0 <= i < |text[1..]| && IsJpChar(text[1..][i]);
        assert IsJpChar(text[i + 1]);
      }
      if exists i :: 0 <= i < |text| && IsJpChar(text[i]) {
        var i :| 0 <= i < |text| && IsJpChar(text[i]);
        if i > 0 {
          assert IsJpChar(text[1..][i - 1]);
        }
      }
    }
  }

  /** The empty string is not Japanese. */
  lemma IsJpEmpty()
    ensures !IsJp("")
  {
  }

  /** `is_jp` distributes over concatenation. */
  lemma {:induction false} IsJpAppend(a: string, b: string)
    ensures IsJp(a + b) == (IsJp(a) || IsJp(b))
  {
    if a != [] {
      assert (a + b)[0] == a[0];
      assert (a + b)[1..] == a[1..] + b;
      IsJpAppend(a[1..], b);
    } else {
      assert a + b == b;
    }
  }

  // ---------------------------------------------------------------------------
  // remove_text_reps
  // ---------------------------------------------------------------------------

  /** Rust's slice `starts_with`: `prefix` is an initial segment of `s`. */
  predicate StartsWith(s: seq<char>, prefix: seq<char>)
  {
    |prefix| <= |s| && s[..|prefix|] == prefix
  }

  /** The first `idx` characters of `s` occur again right after themselves. */
  ghost predicate Repeats(s: string, idx: int)
  {
    1 <= idx < |s| && StartsWith(s[idx..], s[..idx])
  }

  /** `idx` is the shortest prefix length that repeats. */
  ghost predicate IsShortestRepeat(s: string, idx: int)
  {
    Repeats(s, idx) && forall j :: 1 <= j < idx ==> !Repeats(s, j)
  }

  /** `r` is the last position, among 1 .. |s|-1, where a copy of `p` begins. */
  ghost predicate IsLastOccurrence(s: string, p: string, r: int)
  {
    1 <= r < |s| && StartsWith(s[r..], p) && forall k :: r < k < |s| ==> !StartsWith(s[k..], p)
  }

  /** The backward scan `for r_idx in (1..n).rev()` started at `r`: the first position
      at or below `r` (and at least 1) where `p` begins, or 0 when there is none. */
  function LastStart(s: string, p: string, r: int): (k: int)
    requires r < |s|
    ensures k == 0 || 1 <= k <= r
    decreases r
  {
    if r < 1 then 0
    else if StartsWith(s[r..], p) then r
    else LastStart(s, p, r - 1)
  }

  /** The scan finds the largest position in 1 .. r where `p` begins, and 0 only when
      there is none. */
  lemma {:induction false} LastStartSpec(s: string, p: string, r: int)
    requires r < |s|
    ensures LastStart(s, p, r) != 0 ==> StartsWith(s[LastStart(s, p, r)..], p)
    ensures forall j :: LastStart(s, p, r) < j <= r ==> !StartsWith(s[j..], p)
    decreases r
  {
    if r >= 1 && !StartsWith(s[r..], p) {
      LastStartSpec(s, p, r - 1);
    }
  }

  /** The outer loop of `remove_text_reps` from iteration `idx` on: the first iteration whose
      prefix repeats and whose backward scan finds a copy returns the tail from that copy. */
  function TextRepsFrom(s: string, idx: nat): Option<string>
    requires 1 <= idx
    decreases |s| - idx
  {
    if idx >= |s| then None
    else
      var pred := s[..idx];
      var r := LastStart(s, pred, |s| - 1);
      if StartsWith(s[idx..], pred) && r != 0 then Some(s[r..])
      else TextRepsFrom(s, idx + 1)
  }

  /** What `remove_text_reps` returns for `s`. */
  function TextReps(s: string): Option<string>
  {
    TextRepsFrom(s, 1)
  }

  /** Once a prefix repeats, the backward scan succeeds, at the latest at that position. */
  lemma ScanSucceeds(s: string, idx: int)
    requires 1 <= idx < |s|
    ensures Repeats(s, idx) ==> idx <= LastStart(s, s[..idx], |s| - 1)
  {
    LastStartSpec(s, s[..idx], |s| - 1);
  }

  /** An iteration whose prefix repeats and whose scan finds a copy returns that tail. */
  lemma TextRepsFromHit(s: string, idx: nat)
    requires 1 <= idx < |s|
    requires StartsWith(s[idx..], s[..idx]) && LastStart(s, s[..idx], |s| - 1) != 0
    ensures TextRepsFrom(s, idx) == Some(s[LastStart(s, s[..idx], |s| - 1)..])
  {
  }

  /** Any other iteration hands over to the next one. */
  lemma TextRepsFromSkip(s: string, idx: nat)
    requires 1 <= idx < |s|
    requires !(StartsWith(s[idx..], s[..idx]) && LastStart(s, s[..idx], |s| - 1) != 0)
    ensures TextRepsFrom(s, idx) == TextRepsFrom(s, idx + 1)
  {
  }

  lemma NoRepeatsExtend(s: string, from: nat, idx: int)
    requires 1 <= from < |s|
    requires !Repeats(s, from)
    requires forall j :: from + 1 <= j < idx ==> !Repeats(s, j)
    ensures forall j :: from <= j < idx ==> !Repeats(s, j)
  {
  }

  lemma {:induction false} TextRepsFromNone(s: string, from: nat)
    requires 1 <= from
    ensures TextRepsFrom(s, from).None? <==> forall idx :: from <= idx < |s| ==> !Repeats(s, idx)
    decreases |s| - from
  {
    if from < |s| {
      TextRepsFromNone(s, from + 1);
      ScanSucceeds(s, from);
      if Repeats(s, from) {
        TextRepsFromHit(s, from);
        assert TextRepsFrom(s, from).Some?;
      } else {
        TextRepsFromSkip(s, from);
        if forall idx :: from + 1 <= idx < |s| ==> !Repeats(s, idx) {
          NoRepeatsExtend(s, from, |s|);
        }
      }
    }
  }

  /** `remove_text_reps` returns `None` exactly when no prefix repeats right after itself. */
  lemma TextRepsNoneIff(s: string)
    ensures TextReps(s).None? <==> forall idx :: 1 <= idx < |s| ==> !Repeats(s, idx)
  {
    TextRepsFromNone(s, 1);
  }

  lemma {:induction false} TextRepsFromSome(s: string, from: nat) returns (idx: int, rIdx: int)
    requires 1 <= from
    requires TextRepsFrom(s, from).Some?
    ensures from <= idx <= rIdx < |s|
    ensures Repeats(s, idx) && forall j :: from <= j < idx ==> !Repeats(s, j)
    ensures IsLastOccurrence(s, s[..idx], rIdx)
    ensures TextRepsFrom(s, from) == Some(s[rIdx..])
    decreases |s| - from
  {
    assert from < |s|;
    ScanSucceeds(s, from);
    if Repeats(s, from) {
      var r := LastStart(s, s[..from], |s| - 1);
      LastStartSpec(s, s[..from], |s| - 1);
      assert from <= r;
      TextRepsFromHit(s, from);
      idx, rIdx := from, r;
    } else {
      TextRepsFromSkip(s, from);
      idx, rIdx := TextRepsFromSome(s, from + 1);
      NoRepeatsExtend(s, from, idx);
    }
  }

  /** A `Some` result is the tail starting at the last copy of the shortest repeating prefix,
      and that copy starts no earlier than the repetition itself. */
  lemma TextRepsSome(s: string) returns (idx: int, rIdx: int)
    requires TextReps(s).Some?
    ensures IsShortestRepeat(s, idx)
    ensures IsLastOccurrence(s, s[..idx], rIdx)
    ensures idx <= rIdx
    ensures TextReps(s) == Some(s[rIdx..])
  {
    idx, rIdx := TextRepsFromSome(s, 1);
  }

  /** Conversely, the shortest repeating prefix and its last copy determine the result. */
  lemma TextRepsOf(s: string, idx: int, rIdx: int)
    requires IsShortestRepeat(s, idx)
    requires IsLastOccurrence(s, s[..idx], rIdx)
    ensures TextReps(s) == Some(s[rIdx..])
  {
    TextRepsNoneIff(s);
    var idx', rIdx' := TextRepsSome(s);
    assert idx' == idx;
    assert rIdx' == rIdx;
  }

  /** A `Some` result is a non-empty proper suffix of the input. */
  lemma TextRepsProperSuffix(s: string)
    requires TextReps(s).Some?
    ensures 0 < |TextReps(s).value| < |s|
    ensures TextReps(s).value == s[|s| - |TextReps(s).value|..]
  {
    var idx, rIdx := TextRepsSome(s);
  }

  /** "ABCABCDEF": the prefix "ABC" repeats, its last copy starts at 3. */
  lemma ExampleAbcAbcDef()
    ensures TextReps("ABCABCDEF") == Some("ABCDEF")
  {
    var s := "ABCABCDEF";
    assert s[1] != s[0] && s[2] != s[0];
    assert !Repeats(s, 1) && !Repeats(s, 2);
    assert StartsWith(s[3..], s[..3]);
    forall k | 3 < k < |s|
      ensures !StartsWith(s[k..], s[..3])
    {
      if k < 7 { assert s[k..][0] != s[..3][0]; }
    }
    TextRepsOf(s, 3, 3);
  }

  /** "ABCDEF": nothing repeats. */
  lemma ExampleNoRepetition()
    ensures TextReps("ABCDEF") == None
  {
    var s := "ABCDEF";
    forall idx | 1 <= idx < |s|
      ensures !Repeats(s, idx)
    {
      assert s[idx..][0] != s[..idx][0];
    }
    TextRepsNoneIff(s);
  }

  /** "aaaa": the one-character prefix repeats and only its last copy is kept. */
  lemma ExampleOneCharUnit()
    ensures TextReps("aaaa") == Some("a")
  {
    var s := "aaaa";
    assert StartsWith(s[1..], s[..1]);
    TextRepsOf(s, 1, 3);
  }

  /** The collapse is not idempotent: "abaabab" gives "abab", which collapses again to "ab". */
  lemma ExampleNotIdempotent()
    ensures TextReps("abaabab") == Some("abab")
    ensures TextReps("abab") == Some("ab")
  {
    var s := "abaabab";
    assert !Repeats(s, 1) by { assert s[1] != s[0]; }
    assert !Repeats(s, 2) by { assert s[3] != s[1]; }
    assert StartsWith(s[3..], s[..3]);
    forall k | 3 < k < |s|
      ensures !StartsWith(s[k..], s[..3])
    {
      if k == 4 { assert s[k..][0] != s[..3][0]; }
    }
    TextRepsOf(s, 3, 3);
    var t := "abab";
    assert !Repeats(t, 1) by { assert t[1] != t[0]; }
    assert StartsWith(t[2..], t[..2]);
    assert !StartsWith(t[3..], t[..2]);
    TextRepsOf(t, 2, 2);
  }

  // ---------------------------------------------------------------------------
  // Cleaner
  // ---------------------------------------------------------------------------

  /** The regex crate's `Regex::replacen(text, limit, replacement)`. Its matching and
      template expansion are not modelled: the cleaner receives it as a parameter. */
  type Replacen = (Regex, string, nat, string) -> string

  /** One substitution rule applied to `text`. */
  function ApplyRule(replacen: Replacen, rule: Replace, text: string): string
  {
    replacen(rule.pattern, text, rule.limit, rule.replacement)
  }

  /** The rules applied in order, each to the previous rule's output. */
  function ApplyRules(replacen: Replacen, rules: seq<Replace>, text: string): string
    decreases |rules|
  {
    if rules == [] then text
    else ApplyRule(replacen, rules[|rules| - 1], ApplyRules(replacen, rules[..|rules| - 1], text))
  }

  /** Running two rule lists one after the other is running their concatenation. */
  lemma {:induction false} ApplyRulesAppend(replacen: Replacen, a: seq<Replace>, b: seq<Replace>, text: string)
    ensures ApplyRules(replacen, a + b, text) == ApplyRules(replacen, b, ApplyRules(replacen, a, text))
    decreases |b|
  {
    if b == [] {
      assert a + b == a;
    } else {
      assert (a + b)[..|a + b| - 1] == a + b[..|b| - 1];
      assert (a + b)[|a + b| - 1] == b[|b| - 1];
      ApplyRulesAppend(replacen, a, b[..|b| - 1], text);
    }
  }

  /** The second and later rules see the first rule's output, not the original text. */
  lemma ApplyRulesFirst(replacen: Replacen, rule: Replace, rest: seq<Replace>, text: string)
    ensures ApplyRules(replacen, [rule] + rest, text) == ApplyRules(replacen, rest, ApplyRule(replacen, rule, text))
  {
    ApplyRulesAppend(replacen, [rule], rest, text);
    assert [rule][..0] == [];
  }

  /** `Cleaner`: the loaded configuration together with the regex engine's `replacen`. */
  datatype Cleaner = Cleaner(config: Config, replacen: Replacen) {

    /** What `replace` returns: `None` without rules, or when the rewritten text has the
        same UTF-8 byte length as the input; the rewritten text otherwise. */
    function Replaced(text: string): Option<string>
    {
      match config.replace
      case None => None
      case Some(rules) =>
        var t := ApplyRules(replacen, rules, text);
        if Utf8.Len(text) == Utf8.Len(t) then None else Some(t)
    }

    /** `replace`: folds the rules over the text and reports a change of byte length. */
    method Replace(text: string) returns (r: Option<string>)
      ensures r == Replaced(text)
      ensures config.replace.None? ==> r.None?
      ensures config.replace.Some? ==>
        (r.None? <==> Utf8.Len(ApplyRules(replacen, config.replace.value, text)) == Utf8.Len(text))
      ensures r.Some? ==>
        r.value == ApplyRules(replacen, config.replace.value, text) && Utf8.Len(r.value) != Utf8.Len(text)
    {
      if config.replace.None? {
        return None;
      }
      var rules := config.replace.value;
      var originalLen := Utf8.Len(text);
      var current := text;
      for i := 0 to |rules|
        invariant current == ApplyRules(replacen, rules[..i], text)
      {
        assert rules[..i + 1][..i] == rules[..i];
        current := replacen(rules[i].pattern, current, rules[i].limit, rules[i].replacement);
      }
      assert rules[..|rules|] == rules;
      if originalLen == Utf8.Len(current) {
        r := None;
      } else {
        r := Some(current);
      }
    }

    /** `remove_text_reps`: grows the prefix `pred` one character at a time; at the first
        length that repeats right after itself, scans back for its last copy. */
    method RemoveTextReps(text: string) returns (r: Option<string>)
      ensures r == TextReps(text)
      ensures |text| < 2 ==> r.None?
    {
      var chars := text;
      var n := |chars|;
      var pred: seq<char> := [];
      var idx := 1;
      while idx < n
        invariant 1 <= idx <= n + 1
        invariant pred == chars[..idx - 1]
        invariant TextRepsFrom(chars, idx) == TextReps(chars)
        decreases n - idx
      {
        pred := pred + [chars[idx - 1]];
        assert pred == chars[..idx];
        if StartsWith(chars[idx..], pred) {
          var rIdx := n - 1;
          while rIdx >= 1
            invariant 0 <= rIdx <= n - 1
            invariant LastStart(chars, pred, rIdx) == LastStart(chars, pred, n - 1)
            decreases rIdx
          {
            if StartsWith(chars[rIdx..], pred) {
              TextRepsFromHit(chars, idx);
              return Some(chars[rIdx..]);
            }
            rIdx := rIdx - 1;
          }
        }
        TextRepsFromSkip(chars, idx);
        idx := idx + 1;
      }
      return None;
    }

    /** `clean`: with `text_repetitions` off, just `replace`; with it on, collapse the
        replaced text when `replace` returns one (keeping it if nothing collapses), and
        collapse the original text when `replace` returns `None`. */
    function Clean(text: string): Option<string>
    {
      if config.textRepetitions then
        match Replaced(text)
        case Some(t) => Some(TextReps(t).GetOr(t))
        case None => TextReps(text)
      else
        Replaced(text)
    }
  }

  /** `replace` reports no change when no rules are configured. */
  lemma ReplacedWithoutRules(c: Cleaner, text: string)
    requires c.config.replace.None?
    ensures c.Replaced(text).None?
  {
  }

  /** A rewrite that changes the text but keeps its byte length is reported as no change:
      `replace` compares lengths, not contents. */
  lemma ReplacedIgnoresSameLengthRewrite()
    ensures var rule := Replace(Regex("a"), "b", 0);
      var c := Cleaner(Config(false, Some([rule])),
        (re: Regex, t: string, n: nat, rep: string) => if t == "a" then "b" else t);
      ApplyRules(c.replacen, [rule], "a") == "b" && c.Replaced("a") == None
  {
    var rule := Replace(Regex("a"), "b", 0);
    var c := Cleaner(Config(false, Some([rule])),
      (re: Regex, t: string, n: nat, rep: string) => if t == "a" then "b" else t);
    assert [rule][..0] == [];
    assert ApplyRules(c.replacen, [rule], "a") == "b";
    assert Utf8.Len("b") == Utf8.Len("a") == 1;
  }

  /** `replace` counts bytes, not characters: a rule turning U+3042 (hiragana A, three bytes)
      into "abc" triples the character count, yet is reported as no change. */
  lemma ReplacedCountsBytesNotChars()
    ensures var rule := Replace(Regex("\U{3042}"), "abc", 0);
      var c := Cleaner(Config(false, Some([rule])),
        (re: Regex, t: string, n: nat, rep: string) => if t == "\U{3042}" then "abc" else t);
      var t := ApplyRules(c.replacen, [rule], "\U{3042}");
      t == "abc" && |t| == 3 * |"\U{3042}"| && c.Replaced("\U{3042}") == None
  {
    var rule := Replace(Regex("\U{3042}"), "abc", 0);
    var c := Cleaner(Config(false, Some([rule])),
      (re: Regex, t: string, n: nat, rep: string) => if t == "\U{3042}" then "abc" else t);
    assert [rule][..0] == [];
    assert ApplyRules(c.replacen, [rule], "\U{3042}") == "abc";
    Utf8.LenIsCountIffAscii("abc");
    assert Utf8.Len("abc") == 3;
    assert Utf8.Width('\U{3042}') == 3;
    assert Utf8.Len("\U{3042}") == 3;
  }

  /** `clean` returns `None` exactly when `replace` reports no change and, with
      repetitions enabled, no prefix of the input repeats. */
  lemma CleanNoneIff(c: Cleaner, text: string)
    ensures c.Clean(text).None? <==>
      c.Replaced(text).None? &&
      (!c.config.textRepetitions || forall idx :: 1 <= idx < |text| ==> !Repeats(text, idx))
  {
    TextRepsNoneIff(text);
  }

  /** With repetitions enabled and a change from `replace`, `clean` always has a result:
      the replaced text itself, or a proper suffix of it when that collapses. */
  lemma CleanAfterReplace(c: Cleaner, text: string)
    requires c.config.textRepetitions && c.Replaced(text).Some?
    ensures c.Clean(text).Some?
    ensures var t := c.Replaced(text).value;
      var r := c.Clean(text).value;
      0 < |r| <= |t| || t == r
    ensures var t := c.Replaced(text).value;
      var r := c.Clean(text).value;
      r == t[|t| - |r|..] && (r == t <==> TextReps(t).None?)
  {
    var t := c.Replaced(text).value;
    if TextReps(t).Some? {
      TextRepsProperSuffix(t);
    }
  }

  /** A result produced by a single stage differs from the input. */
  lemma CleanSingleStageChanges(c: Cleaner, text: string)
    requires !c.config.textRepetitions || c.Replaced(text).None?
    requires c.Clean(text).Some?
    ensures c.Clean(text).value != text
  {
    if c.config.textRepetitions {
      TextRepsProperSuffix(text);
    }
  }

  /** With both stages, `clean` can hand back its own input: a rule doubling "ab" to "abab"
      changes the byte length, and the collapse then returns "ab". */
  lemma CleanMayReturnInput()
    ensures var rule := Replace(Regex("(.*)"), "$1$1", 1);
      var c := Cleaner(Config(true, Some([rule])),
        (re: Regex, t: string, n: nat, rep: string) => t + t);
      c.Clean("ab") == Some("ab")
  {
    var rule := Replace(Regex("(.*)"), "$1$1", 1);
    var c := Cleaner(Config(true, Some([rule])),
      (re: Regex, t: string, n: nat, rep: string) => t + t);
    assert [rule][..0] == [];
    assert ApplyRules(c.replacen, [rule], "ab") == "abab";
    assert Utf8.Len("ab") == 2;
    assert Utf8.Len("abab") == 4;
    var t := "abab";
    assert !Repeats(t, 1) by { assert t[1] != t[0]; }
    assert StartsWith(t[2..], t[..2]);
    assert !StartsWith(t[3..], t[..2]);
    TextRepsOf(t, 2, 2);
  }

  /** Cleaning is not idempotent: a second call on the cleaned text may change it again. */
  lemma CleanNotIdempotent(replacen: Replacen)
    ensures var c := Cleaner(Config(true, None), replacen);
      c.Clean("abaabab") == Some("abab") && c.Clean("abab") == Some("ab")
  {
    ExampleNotIdempotent();
  }
}
