# vn-text-trim: the text-cleaning engine, modelled in Dafny

vn-text-trim rewrites Japanese text taken from a visual novel before it reaches a
translation tool. The engine lives in `text/src/lib.rs`. It has a free function:

- `is_jp`: does the text contain a character from one of six Japanese code-point ranges;

and a `Cleaner`, which holds a loaded configuration and offers:

- `replace`: applies the configured regex substitution rules in order, each to the previous
  rule's output, and returns `None` when no rules are configured or when the result has the
  same UTF-8 byte length as the input;
- `remove_text_reps`: finds the shortest prefix that repeats right after itself and returns the
  tail of the text from the last copy of that prefix, or `None`;
- `clean`: `replace` alone, or, when `text_repetitions` is set, `replace` followed by
  `remove_text_reps`. When `replace` returns `None`, `clean` collapses the original text instead.
  That includes the case where the rules did rewrite the text but kept its byte length: the
  rewrite is then discarded.

Files:

- `wrappers.dfy` (module `Wrappers`): the `Option` result type.
- `config.dfy` (module `Config`): the `Replace` rule and the `Config` record of
  `config/src/lib.rs`. A compiled regex is kept opaque as its source text.
- `utf8.dfy` (module `Utf8`): the UTF-8 byte length of a string (Rust's `str::len`), as a sum of
  per-character widths of 1 to 4 bytes by code-point range.
- `text.dfy` (module `Text`): `is_jp`, the specification functions of the two algorithms, and the
  `Cleaner` datatype with its methods.

How the model is built:

- `Cleaner.RemoveTextReps` is the imperative algorithm: the growing prefix `pred`, the outer `idx`
  loop, the inner backward `r_idx` scan and the early return. It is proved to compute `TextReps`.
  `TextReps` spells out the same loops as recursion (`TextRepsFrom` for the outer loop,
  `LastStart` for the backward scan). The lemmas then characterise `TextReps` without reference
  to the loops: it is `None` exactly when no prefix repeats; otherwise it is the tail from the
  last occurrence of the shortest repeating prefix.
- `Cleaner.Replace` is the imperative rule loop. It is proved to compute `Replaced`, which is
  built on `ApplyRules`, the left-to-right fold of the rules.
- `Cleaner.Clean` is the `Option` composition of the source's `clean`. It is written over
  `Replaced` and `TextReps`, the functions the two methods are proved to compute.
- The regex crate's `Regex::replacen` is not modelled. The cleaner carries it as a function
  parameter `replacen`, with the type `Text.Replacen`, so every property holds for any regex
  behaviour.

Three behaviours of the code are worth knowing, and the model keeps all three:

- `replace` compares byte lengths, not contents. `ReplacedIgnoresSameLengthRewrite` shows a
  rewrite that changes the text, keeps its length, and is reported as no change.
  `ReplacedCountsBytesNotChars` shows that the length is counted in bytes, not characters.
- With both stages on, `clean` can return `Some` of its own input, as `CleanMayReturnInput`
  shows, so a `Some` result does not by itself mean that the text changed.
- Cleaning does not always reach a fixed point in one pass (`CleanNotIdempotent`): a second call
  on the cleaned text may change it again.

## Model

| member | source | states |
|---|---|---|
| `Utf8.Width` | text/src/lib.rs:37 | a character takes 1 to 4 bytes, and exactly 1 when it is ASCII |
| `Utf8.LenAppend` | text/src/lib.rs:37-43 | the byte length of a concatenation is the sum of the byte lengths |
| `Utf8.LenBounds` | text/src/lib.rs:37-43 | the byte length lies between the character count and four times it |
| `Utf8.LenIsCountIffAscii` | text/src/lib.rs:37-43 | the byte length equals the character count iff every character is ASCII |
| `Text.IsJpIff` | text/src/lib.rs:5-15 | `is_jp` holds iff some character lies in one of the six inclusive ranges |
| `Text.IsJpEmpty` | text/src/lib.rs:5-15 | the empty string is not Japanese |
| `Text.IsJpAppend` | text/src/lib.rs:5-15 | `is_jp(a + b)` is `is_jp(a) or is_jp(b)` |
| `Text.LastStart` | text/src/lib.rs:59-63 | the backward scan from `r` stops at a position in `1..r`, or gives 0 when it runs out |
| `Text.LastStartSpec` | text/src/lib.rs:59-63 | the backward scan from `r` returns the largest position in `1..r` where the prefix begins, or 0 when there is none |
| `Text.ScanSucceeds` | text/src/lib.rs:58-61 | once the prefix of length `idx` repeats, the backward scan stops no lower than `idx` |
| `Text.TextRepsFromNone` | text/src/lib.rs:55-67 | from iteration `from` on, the loop ends with `None` iff no prefix length from `from` to `n-1` repeats |
| `Text.TextRepsNoneIff` | text/src/lib.rs:51-67 | `remove_text_reps` is `None` iff no `idx` in `1..n` has `chars[idx..]` starting with `chars[..idx]` |
| `Text.TextRepsFromSome` | text/src/lib.rs:55-64 | a `Some` from iteration `from` comes from the first repeating length at or after `from` and the last copy of that prefix |
| `Text.TextRepsSome` | text/src/lib.rs:55-62 | a `Some` result is `chars[r_idx..]` where `idx` is the shortest repeating length, `r_idx >= idx` is the last copy of `chars[..idx]` at or after position 1 |
| `Text.TextRepsOf` | text/src/lib.rs:55-62 | conversely, the shortest repeating length and the last copy of its prefix determine the result |
| `Text.TextRepsProperSuffix` | text/src/lib.rs:59-61 | a `Some` result is non-empty, strictly shorter than the input, and a suffix of it |
| `Text.ExampleAbcAbcDef` | text/src/lib.rs:51-68 | "ABCABCDEF" collapses to "ABCDEF" |
| `Text.ExampleNoRepetition` | text/src/lib.rs:51-68 | "ABCDEF" gives `None` |
| `Text.ExampleOneCharUnit` | text/src/lib.rs:51-68 | "aaaa" collapses to "a" |
| `Text.ExampleNotIdempotent` | text/src/lib.rs:51-68 | "abaabab" collapses to "abab", which collapses again to "ab" |
| `Text.ApplyRulesAppend` | text/src/lib.rs:39-41 | running two rule lists in turn is running their concatenation |
| `Text.ApplyRulesFirst` | text/src/lib.rs:39-41 | the rules after the first see the first rule's output, not the original text |
| `Text.Cleaner.Replace` | text/src/lib.rs:31-49 | `None` without rules; otherwise the rules are folded in order and the result is `None` iff the final byte length equals the input's, else `Some` of the folded text, whose byte length differs |
| `Text.Cleaner.RemoveTextReps` | text/src/lib.rs:51-68 | the loops compute `TextReps` (with `pred == chars[..idx]` at each check); fewer than two characters give `None` |
| `Text.ReplacedWithoutRules` | text/src/lib.rs:32-35 | no configured rules means `None` |
| `Text.ReplacedIgnoresSameLengthRewrite` | text/src/lib.rs:37-45 | a rule that turns "a" into "b" changes the text, yet `replace` reports `None` |
| `Text.ReplacedCountsBytesNotChars` | text/src/lib.rs:37-45 | a rule turning U+3042 (three bytes) into "abc" triples the character count, yet `replace` reports `None` |
| `Text.CleanNoneIff` | text/src/lib.rs:70-75 | `clean` is `None` iff `replace` is `None` and, with repetitions on, no prefix of the input repeats |
| `Text.CleanAfterReplace` | text/src/lib.rs:72 | with repetitions on and a change from `replace`, `clean` is always `Some`: the replaced text, or a proper suffix of it exactly when it collapses |
| `Text.CleanSingleStageChanges` | text/src/lib.rs:71-74 | when only one stage produced the result, it differs from the input |
| `Text.CleanMayReturnInput` | text/src/lib.rs:72 | with both stages, a rule doubling "ab" makes `clean("ab")` return `Some("ab")` |
| `Text.CleanNotIdempotent` | text/src/lib.rs:72 | with repetitions on, `clean` of its own output can change it again |

## Left out

- The regex crate: matching, `replacen` with its limit (0 meaning all matches) and
  capture-group templates (text/src/lib.rs:40, config/src/re.rs:7-11). It is a parameter
  of the cleaner, not modelled.
- Regex compilation at load time and `Config::from_file` (config/src/lib.rs:45-53): file I/O
  and TOML deserialisation. The model starts from a loaded `Config`.
- `Cleaner::new` (text/src/lib.rs:24-28) only wraps the configuration; it is the datatype
  constructor `Text.Cleaner`.
- The unit tests (text/src/lib.rs:78-161). Their expected outputs depend on a rule file that
  is not part of this model.
- `src/main.rs` (clipboard polling and retries), `src/dll.rs` (the Windows plugin ABI and its
  global cleaner) and `src/cli.rs` (argument parsing): OS I/O and foreign calls.
- `utils/src/lib.rs`: error-message formatting only.
- A dialogue-extraction stage (a "dialogue-first" mode) does not exist in this code and is not
  modelled.
- Rust's `String` and `Vec<char>` allocation and copying are not modelled: strings are
  `seq<char>` values.
