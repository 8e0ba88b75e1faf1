# A guarded `.env` editor, modelled in Dafny

The modelled program is a small Go command-line tool (`main.go`). It adds or
updates one `KEY=VALUE` entry in the `.env` file of the current directory.
It works in four steps:

1. It normalises the key the user types. The text is trimmed, spaces become
   underscores, and letters are upper-cased. Only `A–Z` and `_` may remain.
   The key always ends in `_KEY`.
2. It refuses a value that holds a Cyrillic letter.
3. It reads the whole file into a map: comments and blank lines are skipped,
   lines without `=` are ignored, and a later line wins over an earlier one.
   It writes the map back as `k=v` lines.
4. A key that already exists is overwritten only after two checks. The user
   must answer "yes", then type the current value within three attempts.

The model keeps the program's logic and replaces its I/O with values:

- The terminal is the list of lines the user enters. Reading past the end
  gives `""`, because main.go ignores read errors.
- The file before the call is a `Disk`: absent, holding some text, or
  impossible to open. A flag says whether the write fails.
- The text handed to the write is returned as a result.
- Go's map iteration order is left open. The writer picks keys in an
  arbitrary order, and the lemmas quantify over every order.

Modules, one per component of `main.go`:

| file | module | models |
|---|---|---|
| `wrappers.dfy` | `Wrappers` | `Option` / `Result` |
| `text.dfy` | `Text` | `strings.TrimSpace` with Go's `unicode.IsSpace` set, ASCII case mapping, `HasPrefix`/`HasSuffix`, first index of a character, split and join on one character |
| `keys.dfy` | `KeyFormat` | `formatAndValidateKey` |
| `values.dfy` | `ValueCheck` | `validateValue` |
| `envfile.dfy` | `EnvFile` | the line loop of `readEnvFileToMap` (with `bufio.ScanLines`), and `writeEnvMap` |
| `confirm.dfy` | `Confirmation` | `promptOverwriteConfirmation` |
| `upsert.dfy` | `Upsert` | `AddOrUpdateEnvVarSecure` and the opening of the file |
| `session.dfy` | `Session` | `main` and `promptValidInput` |

Behaviour that the proofs bring out:

- **Comment-like keys are lost on rewrite.** A line such as ` #a=1` is not
  skipped, because it does not start with `#`. It reads as key `#a`.
  Written back, it becomes `#a=1`, which the next read skips as a comment
  (`EnvFile.CommentKeyLost`). The general round-trip statement is therefore
  "the written store minus keys starting with `#`".
- **An empty stored value is confirmed by an empty line.** A line `K=` stores
  an empty value. Once the user has said "yes", an empty re-entry confirms
  the overwrite, and so does the end of the input
  (`Confirmation.EmptyCurrentConfirmedAtEndOfInput`).
- **The round trip needs fewer conditions than one might expect.** Values may
  contain `=`, and an entry may have an empty key and an empty value (`=`
  reads back as `""`→`""`). Only newlines, untrimmed text, `=` in keys and a
  leading `#` on a key break it.

Details of the code that are easy to get wrong, and that the model follows:

- **Trimmed re-entries.** Each re-entry of the current value is trimmed
  before comparison (main.go:104), so the comparison is not literal.
- **An invalid key ends the run.** The key prompt accepts any line, and a
  key the normaliser rejects ends the run at once (main.go:147-151). It is
  not asked again.
- **The value prompt always ends.** The value prompt repeats on invalid
  input. End of input reads as `""`, which passes validation, so in the
  model the prompt always terminates.

## Model

| member | source | states |
|---|---|---|
| `KeyFormat.Format` | main.go:12-27 | A successful result is canonical: only `A–Z` and `_`, ending in `_KEY`. The call succeeds exactly when the trimmed input is non-empty and holds only Latin letters, `_` and spaces, so empty, blank, digit or punctuation input fails. The result begins with the trimmed input, character by character, with spaces as `_` and letters upper-cased. Its length is the input's, or the input's plus four. |
| `KeyFormat.Prepare` | main.go:14-15 | `ReplaceAll` then `ToUpper`: the result has the input's length, and each character is the input's with a space turned into `_` and then upper-cased. |
| `KeyFormat.PrepareKeyChars` | main.go:14-17 | After the space replacement and upper-casing, the text is all `[A-Z_]` exactly when the typed text was all Latin letters, `_` and spaces. |
| `KeyFormat.FormatKeepsExistingSuffix` | main.go:22-24 | The suffix is never doubled. The result equals the prepared input exactly when that input already ends in `_KEY`. |
| `KeyFormat.FormatFixesCanonical` | main.go:13-26 | Every canonical key is returned unchanged. |
| `KeyFormat.FormatIdempotent` | main.go:12-27 | Normalising a normalised key gives it back. |
| `KeyFormat.FormatRejects` | main.go:17-20 | Blank input, or a trimmed input with any character other than a Latin letter, `_` or space, is rejected with `InvalidCharacters`. |
| `KeyFormat.FormatExampleSpaces` | main.go:13-26 | `" db password "` gives `DB_PASSWORD_KEY`. |
| `KeyFormat.FormatExampleSuffixPresent` | main.go:22-24 | `"already_KEY"` gives `ALREADY_KEY`, with one suffix. |
| `KeyFormat.FormatExampleBareKey` | main.go:22-24 | `"key"` gives `KEY_KEY`, because `KEY` does not end in `_KEY`. |
| `ValueCheck.Validate` | main.go:30-37 | Validation succeeds exactly when the input has no letter in `а-я`, `А-Я`, `ё`, `Ё` anywhere. An accepted value is the trimmed input with no other change, and it is Cyrillic-free. |
| `ValueCheck.TrimKeepsCyrillic` | main.go:31-33 | Trimming neither hides nor removes a Cyrillic letter. So checking the trimmed text is the same as checking the raw text. |
| `ValueCheck.ValidateIdempotent` | main.go:30-37 | An accepted value is accepted again unchanged. |
| `ValueCheck.ValidateExampleCyrillic` | main.go:32-35 | `пароль` is refused. |
| `ValueCheck.ValidateExampleLatin` | main.go:31-36 | `" secret123 "` is accepted as `secret123`. |
| `Text.Trim` | main.go:13 | `strings.TrimSpace`: neither end of the result is white space, and the result is no longer than the input. |
| `Text.IndexOf` | main.go:71 | The first occurrence of a character, as `SplitN` finds the first `=`: none exactly when the character is absent, otherwise a position holding it with no earlier occurrence. |
| `Text.TrimUnique` | main.go:13 | Trimming is determined by that promise. Any white space around a trimmed string trims back to that string. |
| `Text.TrimEmptyIff` | main.go:68 | A line trims to `""` exactly when it is all white space. This is the blank-line test. |
| `Text.TrimSubset` | main.go:73 | Trimming never introduces a character. |
| `Text.TrimKeepsNonSpace` | main.go:31 | Trimming never removes a character that is not white space. |
| `Text.UpperIsUpper` | main.go:15 | `strings.ToUpper` on ASCII: no lower-case ASCII letter remains, every other character is kept, and lower-casing the result gives what lower-casing the input gives. |
| `Text.LowerIsLower` | main.go:93 | `strings.ToLower` on ASCII: no upper-case ASCII letter remains, every other character is kept, and upper-casing the result gives what upper-casing the input gives. |
| `Text.SplitJoin` | main.go:85 | Splitting on the separator undoes `strings.Join` of at least one piece, provided no piece holds the separator. For no pieces it does not: the join is `""`, which splits as one empty piece. |
| `Text.JoinTerminate` | main.go:85 | `strings.Join` of at least one line with one more newline appended is the same as ending each line with a newline. |
| `EnvFile.ScanLines` | main.go:65-67 | The scanner's lines never hold a newline. |
| `EnvFile.ScanLinesOfJoined` | main.go:65-67 | The scanner reads back exactly the lines the writer joined and ended with a newline, provided there is at least one line and none holds a newline or ends in a carriage return. With no lines the text is a lone newline, which scans as one empty line. |
| `EnvFile.ParseLine` | main.go:67-74 | A line gives nothing exactly when it trims to `""`, starts with `#` (untrimmed), or has no `=`. Otherwise the key is trimmed and free of `=`, and the value is trimmed. When the line holds no newline, which every scanned line satisfies, neither key nor value holds one. |
| `EnvFile.ParseLineSplit` | main.go:71-73 | For any text `a` without `=` and any rest `b`, the line `a=b` gives key `Trim(a)` and value `Trim(b)`. The rest may itself hold `=`. The one exception is an `a` that starts with `#`: then the line gives nothing. |
| `EnvFile.ParseLastWins` | main.go:65-75 | `Parse`, the reading of a file's text: a key is in the store read exactly when some scanned line defines it. Its value is the one given by the last line that defines it. |
| `EnvFile.CollectKeys` | main.go:73 | Collecting the parsed lines into the map: a key is in it exactly when some parsed line carries that key. |
| `EnvFile.CollectLastWins` | main.go:73 | Collecting entries in order keeps, for each key, the value of the last entry that carries it. |
| `EnvFile.ParseWellFormed` | main.go:56-77 | Whatever the file holds, every key read is trimmed, free of `=` and newlines, and every value is trimmed and newline-free. |
| `EnvFile.RenderLines` | main.go:80-85 | An empty store is written as `"\n"`. When every entry is well formed (trimmed, newline-free, no `=` in the key), a non-empty listing scans back as exactly one `k=v` line per entry, in the listing's order. An entry with a newline in it would scan as more than one line. |
| `EnvFile.RenderTerminated` | main.go:80-85 | `Render`, the text handed to the write: an empty listing gives a lone newline, and any other listing gives each entry's `k=v` line followed by a newline. |
| `EnvFile.ParseRender` | main.go:56-86 | Reading back the text written for any list of well formed entries (keys and values trimmed and newline-free, no `=` in keys) gives the map that list describes, minus keys starting with `#`. Untrimmed text does not come back as written. |
| `EnvFile.ListingEntries` | main.go:82-84 | A listing of a map (one entry per key, any order) holds only the map's own entries, as many as it has keys. |
| `EnvFile.RoundTrip` | main.go:56-86 | For a store whose keys are trimmed, newline-free and without `=`, and whose values are trimmed and newline-free, the round trip holds for every iteration order. Reading the written text gives back the store minus keys starting with `#`, and the whole store when there are none. |
| `EnvFile.CommentKeyLost` | main.go:68-73 | A file line ` #k=v` reads as key `#k`. Written back, the same entry reads as nothing. |
| `EnvFile.Serialise` | main.go:80-86 | The writer lists every entry of the map exactly once, in an unspecified order, with as many lines as keys. It produces those lines joined and ended by newlines. For a well formed store, the text reads back as the store minus keys starting with `#`. |
| `Confirmation.Attempts` | main.go:100-113 | The re-entry loop confirms at the first attempt whose trimmed line equals the current value, after reading up to that line. If all three attempts fail it refuses, after reading all three. |
| `Confirmation.Confirm` | main.go:89-114 | An answer other than "yes" (trimmed, lower-cased) refuses after one line. After "yes", the call confirms at the first of at most three matching re-entries, or refuses after four lines. |
| `Confirmation.YesSpellings` | main.go:92-95 | An answer counts as "yes" exactly when, trimmed, it is one of the eight upper/lower-case spellings of `yes`. |
| `Confirmation.ConfirmIff` | main.go:92-113 | The call confirms exactly when the answer is "yes" and one of the next three trimmed lines equals the current value. |
| `Confirmation.YesIgnoresCaseAndSpace` | main.go:93-95 | `" YES "` and `Yes` count as "yes". `y` and `no` do not. |
| `Confirmation.ConfirmOnSecondAttempt` | main.go:101-108 | After "yes", a wrong first attempt followed by a right second one confirms after reading three lines. |
| `Confirmation.EmptyCurrentConfirmedAtEndOfInput` | main.go:103-107 | When the stored value is empty, "yes" followed by the end of the input confirms. |
| `Upsert.Decide` | main.go:123-135 | A new key is added with no line read. An existing key is updated exactly when the confirmation succeeds. Added and updated stores set the key to the value and keep every other entry. A cancelled decision keeps the store unchanged. |
| `Upsert.Load` | main.go:56-62 | Opening fails only for an unopenable file. A missing file reads as the empty store. The store read is always well formed. |
| `Upsert.AddOrUpdate` | main.go:117-136 | A read error ends the call with no prompt and no write. `added` holds exactly for a new key, and `updated` exactly for a confirmed existing key. The call writes once exactly when one of them holds, and never for a cancelled update. A failed write is reported as `WriteFailed` with the flag still set. For every key and value, the written text is the loaded store with the key set, rendered in some iteration order. For a well formed key and value, it reads back as that store minus keys starting with `#`. |
| `Upsert.UpdateChangesOnlyKey` | main.go:124-130 | After a confirmed update, whatever order the writer lists the new store in, every other key not starting with `#` reads back from the written text with its old value. The key, unless it starts with `#`, reads back with the new value. |
| `Upsert.RefusalKeepsStore` | main.go:125-127 | Answering anything but "yes" cancels, keeps the store and reads one line. |
| `Upsert.ThreeMismatchesKeepStore` | main.go:125-127 | Three wrong re-entries after "yes" cancel and keep the store. |
| `Session.PromptValue` | main.go:40-53 | The value prompt returns the first line that passes validation, trimmed, and skips every line before it, which failed. |
| `Session.Run` | main.go:138-166 | The run is rejected exactly when the first line is not a valid key, and then nothing is written. Cancelling, or failing to open the file, writes nothing. Whenever the file is written, the key is canonical and the value Cyrillic-free. With newline-free input lines, the written file reads back as the loaded store with that key set to that value, minus keys starting with `#`; the new key itself always reads back. For a valid key and a readable file, the file is written exactly when the key is new or the confirmation (read from the lines after the value) succeeds, and what is written is that store in some iteration order. The run ends `Added` exactly for a new key, and `Updated` exactly for a confirmed update, when the write works. It ends `Cancelled` exactly for an unconfirmed update. It ends `WriteFailed` exactly when a write was attempted and failed. |

## Left out

- Terminal output: every message, the emoji, and the display of the raw key
  in the confirmation question. None of these affects the outcome.
- The terminal itself: each prompt in main.go wraps standard input in a
  new `bufio.Reader`. With piped input, one reader may buffer lines that the
  next reader never sees. The model treats the input as one shared stream of
  lines, as an interactive terminal behaves.
- File system details: permission bits, the creation of an empty file by
  `O_CREATE` as a lasting effect, closing the file, and the file contents
  after a failed write. A missing file reads as empty; the write is reported
  by the text handed to it and a failure flag.
- Scanner limits: `bufio.Scanner`'s 64 KiB line limit, and the fact that
  `readEnvFileToMap` ignores `scanner.Err()`, so lines after an over-long
  line would be silently dropped.
- Strings are sequences of Unicode scalar values, not Go byte strings. Invalid
  UTF-8 is not modelled, and `regexp` is replaced by character predicates.
- KeyFormat.Format: upper-cases ASCII letters only. Go's `strings.ToUpper`
  also maps `ı` (U+0131) to `I` and `ſ` (U+017F) to `S`, so a key containing
  those letters is rejected here but accepted by the Go code. For the "yes"
  answer, ASCII lower-casing decides the same as Go's, because no other
  character lower-cases to `y`, `e` or `s`.
- Go's map iteration order: the writer's listing is an unspecified choice
  rather than a particular order.
