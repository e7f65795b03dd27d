# kotlinx.html build scripts: string processing

The build of kotlinx.html regenerates its tag and entity tables from the
WHATWG pages. Three small pieces of string processing in that build are
modelled here, one Dafny module each:

- `EntityList` (`entity_list.dfy`) covers `extract_entities`, the step that
  turns the keys of the WHATWG `entities.json` table into `entities.txt`.
  - Each key (`&amp;`, `&amp`, ...) loses its leading run of `&` and `\`
    characters and its trailing run of `;`.
  - The names are written one per line, with a newline before every name
    except the first. The code writes one name per key, duplicates
    included (`EntityNamesKeepDuplicates`).
  - `WriteNames` is the writer loop, proved equal to the pure join
    `JoinLines`. That join reads back through `SplitLines`.
    `ExtractEntities` composes `EntityNames` with `WriteNames`.
- `BuildVersion` (`build_version.dfy`) covers the version block of
  `build.gradle.kts`. The `Project` class holds the mutable `version`
  property. `ConfigureVersion` runs three steps on it in order:
  - `release` deletes every "-SNAPSHOT" of a version that ends in one;
  - `versionTag` replaces every "-SNAPSHOT" of a version that ends in one
    with `-<tag>`, or aborts the build on a version that does not;
  - `releaseVersion` replaces the version outright.

  `ConfigureVersion` is proved against the pure `Resolve`. Kotlin's
  `String.replace` is modelled as `ReplaceSnapshot`, which replaces every
  non-overlapping occurrence from left to right.
- `HrefQuoting` (`href_quoting.dfy`) covers the substitution
  `<a href=([^"][^\s>]+)` → `<a href="\1"` of `fix_html5_table`.
  - `Scan` cuts the text into copied characters and matches, the way the
    regular expression engine scans it.
  - `Rewrite` is the result of the substitution.
  - `QuoteHrefs` is a cursor loop over the text, proved equal to `Rewrite`.
  - Python's `\s` on text is modelled with the full set of characters that
    `str.isspace` accepts.
  - The substitution has no failure case.

## Model

| member | source | states |
|---|---|---|
| EntityList.LeadRun | buildSrc/src/main/resources/extract_entities.py:7 | the run `lstrip('\&')` removes: the first n characters are all `&` or `\`, and the next one is neither, or there is none |
| EntityList.TrailRun | buildSrc/src/main/resources/extract_entities.py:7 | the run `rstrip(';')` removes: the last n characters are all `;`, and the one before them is not, or there is none |
| EntityList.NormalizeKey | buildSrc/src/main/resources/extract_entities.py:7 | the name can be stripped no further: it is empty, or it neither starts with `&`/`\` nor ends with `;`. It is a contiguous infix of the key, with only `&`/`\` before it and only `;` after it |
| EntityList.NormalizeKeyUnique | buildSrc/src/main/resources/extract_entities.py:7 | any bare infix framed by a lead run and a semicolon run is exactly the name, so interior characters are all kept |
| EntityList.NormalizeKeyIdempotent | buildSrc/src/main/resources/extract_entities.py:7 | normalising a name that is already normalised returns it unchanged |
| EntityList.NormalizeKeyKeepsInterior | buildSrc/src/main/resources/extract_entities.py:7 | `&a;b;` gives `a;b`: interior semicolons survive |
| EntityList.NormalizeKeyBothForms | buildSrc/src/main/resources/extract_entities.py:7 | `&amp` and `&amp;` both give `amp` |
| EntityList.NormalizeKeyWholeRuns | buildSrc/src/main/resources/extract_entities.py:7 | `\&lt;;` gives `lt` (mixed lead run, several semicolons); `&;` gives the empty name |
| EntityList.NormalizeKeySingleLine | buildSrc/src/main/resources/extract_entities.py:7 | a key without a newline gives a name without one |
| EntityList.EntityNames | buildSrc/src/main/resources/extract_entities.py:7 | exactly one name per key, in key order |
| EntityList.EntityNamesIgnoreValues | buildSrc/src/main/resources/extract_entities.py:7 | the names depend on the keys only, never on the code points or characters |
| EntityList.EntityNamesKeepDuplicates | buildSrc/src/main/resources/extract_entities.py:7 | no deduplication: keys `&amp` and `&amp;` give `["amp", "amp"]` |
| EntityList.EntityNamesSingleLine | buildSrc/src/main/resources/extract_entities.py:7 | keys without newlines give names without newlines |
| EntityList.JoinLines | buildSrc/src/main/resources/extract_entities.py:9-12 | no names give the empty text; n ≥ 1 names give a text as long as the names together plus n − 1 separators |
| EntityList.SplitLines | buildSrc/src/main/resources/extract_entities.py:9-12 | reading the list back yields at least one line, and no line contains a newline |
| EntityList.SplitLinesOfJoin | buildSrc/src/main/resources/extract_entities.py:9-12 | a newline written before a newline-free name is where reading back cuts: splitting `a` + newline + `b` gives the lines of `a`, then `b` |
| EntityList.SplitJoinLines | buildSrc/src/main/resources/extract_entities.py:9-12 | for at least one name and no newline in any name, splitting the written text at its newlines gives back the names |
| EntityList.JoinSplitLines | buildSrc/src/main/resources/extract_entities.py:9-12 | joining the lines of any text gives the text back, so the separator is a single newline with none before the first or after the last |
| EntityList.WriteNames | buildSrc/src/main/resources/extract_entities.py:9-12 | the writer loop, a newline before every name but the first, produces exactly the join of the names |
| EntityList.ExtractEntities | buildSrc/src/main/resources/extract_entities.py:7-12 | the output is the join of the normalised keys; an empty table gives empty output; for a non-empty table whose keys have no newline, the output splits back into the names |
| BuildVersion.EndsWith | build.gradle.kts:28-41 | Kotlin's `endsWith` (lines 28 and 41): the suffix fits in the text and matches its last characters one by one |
| BuildVersion.ReplaceSnapshot | build.gradle.kts:29 | Kotlin's `replace` of every non-overlapping "-SNAPSHOT", left to right; replacing it with itself changes nothing |
| BuildVersion.SnapshotCountIsOccurrences | build.gradle.kts:29 | the left-to-right replacement meets every index at which "-SNAPSHOT" starts, so no occurrence is left in place |
| BuildVersion.NoOverlap | build.gradle.kts:29 | two occurrences of "-SNAPSHOT" cannot overlap |
| BuildVersion.ReplaceSnapshotSkipsPrefix | build.gradle.kts:29 | text in which no occurrence starts is copied unchanged ahead of the rest's replacement |
| BuildVersion.ReplaceSnapshotLength | build.gradle.kts:29 | each replaced "-SNAPSHOT" changes the length by the replacement's length minus nine; nothing else changes it |
| BuildVersion.ReplaceSnapshotAbsent | build.gradle.kts:29 | a text without "-SNAPSHOT" is left as it is, with no occurrence counted |
| BuildVersion.ReplaceSnapshotSuffix | build.gradle.kts:29 | when the only "-SNAPSHOT" is the suffix, exactly that suffix is replaced |
| BuildVersion.SuffixIsCounted | build.gradle.kts:28-29 | in a version ending in "-SNAPSHOT" the suffix is an occurrence, so there is at least one |
| BuildVersion.DeleteLength | build.gradle.kts:29 | deleting every "-SNAPSHOT" makes the text nine characters shorter per occurrence |
| BuildVersion.ApplyRelease | build.gradle.kts:26-31 | with `release` set on a version ending in "-SNAPSHOT", the version loses nine characters per occurrence and gets strictly shorter; otherwise it is unchanged |
| BuildVersion.ApplyVersionTag | build.gradle.kts:38-47 | fails, with the script's message, exactly when a tag is given and the version does not end in "-SNAPSHOT"; without a tag the version is unchanged; with one, each occurrence changes the length by the tag's length plus one minus nine |
| BuildVersion.Resolve | build.gradle.kts:26-51 | the whole block fails exactly when a tag is given and the version after `release` does not end in "-SNAPSHOT"; on success `releaseVersion`, when given, is the version; with neither tag nor `releaseVersion` the version is what `release` made it |
| BuildVersion.Project.constructor | build.gradle.kts:21 | the project starts with the declared version |
| BuildVersion.Project.ConfigureVersion | build.gradle.kts:26-51 | the block run on the project gives the outcome of `Resolve` on the old version. On success the version is the resolved one; on the error the version is left as the `release` step made it |
| BuildVersion.NoPropertiesKeepDeclared | build.gradle.kts:21 | with no properties set, the version stays as declared |
| BuildVersion.ReleaseKeepsNonSnapshot | build.gradle.kts:26-31 | `release` on a version not ending in "-SNAPSHOT" leaves it unchanged |
| BuildVersion.ReleaseDeletesSnapshots | build.gradle.kts:26-31 | `release` on a version ending in "-SNAPSHOT" deletes every "-SNAPSHOT" of it: the suffix is one of them, and the version is nine characters shorter per occurrence |
| BuildVersion.ReleaseStripsSnapshot | build.gradle.kts:26-31 | `release` on `base + "-SNAPSHOT"` with no other occurrence gives `base` |
| BuildVersion.VersionTagReplacesSnapshot | build.gradle.kts:38-43 | `versionTag` on `base + "-SNAPSHOT"` with no other occurrence gives `base + "-" + tag` |
| BuildVersion.SnapshotOnlyAtEnd | build.gradle.kts:41-42 | a base without a dash holds no "-SNAPSHOT" before the suffix |
| BuildVersion.VersionTagExample | build.gradle.kts:36 | the documented example: "0.6.13-SNAPSHOT" with tag "my-tag" gives "0.6.13-my-tag" |
| BuildVersion.VersionTagRejectsNonSnapshot | build.gradle.kts:44-45 | `versionTag` on a version that does not end in "-SNAPSHOT" after `release` fails with the script's message, whatever `releaseVersion` says |
| BuildVersion.DeclaredVersionRejectsVersionTag | build.gradle.kts:21-45 | the declared version "0.12.0-jf.1" is not a snapshot, so any `versionTag` fails the build |
| BuildVersion.ReleaseWithVersionTagFails | build.gradle.kts:26-45 | `release` runs first, so `release` with `versionTag` on a snapshot version fails |
| BuildVersion.CounterexampleRelease | build.gradle.kts:26-31 | `release` on "-SNAP-SNAPSHOTSHOT-SNAPSHOT" leaves "-SNAPSHOT": deleting the occurrences joins a new one |
| BuildVersion.ReleaseThenVersionTagCanSucceed | build.gradle.kts:26-45 | with `release` and tag "t", "-SNAP-SNAPSHOTSHOT-SNAPSHOT" resolves to "-t" rather than failing |
| BuildVersion.ReleaseVersionOverrides | build.gradle.kts:49-51 | once reached, `releaseVersion` decides the version alone, whatever the earlier steps did |
| HrefQuoting.CharacterClasses | buildSrc/src/main/resources/preprocess.py:9 | space, tab, newline, carriage return, vertical tab, form feed, no-break space and ideographic space are `\s`; `>` and whitespace are not value characters; `"`, `'`, `<`, `/` and letters are |
| HrefQuoting.MatchIsLongestCapture | buildSrc/src/main/resources/preprocess.py:9 | the pattern matches exactly when the text starts with `<a href=` followed by a capture, and the match takes the longest capture |
| HrefQuoting.ScanFirstPiece | buildSrc/src/main/resources/preprocess.py:9 | the scan of a non-empty text starts with a match where the pattern matches and with the first character otherwise; that piece covers exactly the text it was scanned from, and the scan resumes right after it |
| HrefQuoting.Rewrite | buildSrc/src/main/resources/preprocess.py:9 | the output is the input's length plus two per match, for the inserted quotes |
| HrefQuoting.RunLength | buildSrc/src/main/resources/preprocess.py:9 | `[^\s>]+` is greedy: the run holds only value characters, and it stops at whitespace, `>` or the end |
| HrefQuoting.MatchEnd | buildSrc/src/main/resources/preprocess.py:9 | a match spans at least `<a href=` plus two characters and stays inside the text |
| HrefQuoting.MatchCapture | buildSrc/src/main/resources/preprocess.py:9 | a captured value is a first character other than `"`, then at least one character that is neither whitespace nor `>` |
| HrefQuoting.ScanPiecesWellFormed | buildSrc/src/main/resources/preprocess.py:9 | every capture of the scan is well formed, and each is maximal: what follows a match is a copied whitespace or `>`, or the end of the text |
| HrefQuoting.RewriteStep | buildSrc/src/main/resources/preprocess.py:9 | text outside matches is copied character by character; each match `<a href=V` becomes `<a href="V"`, and the scan resumes after it |
| HrefQuoting.ScanConsumesInput | buildSrc/src/main/resources/preprocess.py:9 | deleting the two inserted quotes at each rewritten site gives back the input |
| HrefQuoting.EmittedLength | buildSrc/src/main/resources/preprocess.py:9 | each piece's output is its source, plus two quotes for a match |
| HrefQuoting.RewriteKeepsPrefix | buildSrc/src/main/resources/preprocess.py:9 | where no match starts before position k, the first k + 8 characters are kept |
| HrefQuoting.RewriteWithoutMatch | buildSrc/src/main/resources/preprocess.py:9 | a text in which the pattern matches nowhere is left unchanged |
| HrefQuoting.RewriteWithoutOpening | buildSrc/src/main/resources/preprocess.py:9 | a text without `<` is left unchanged |
| HrefQuoting.NoMatchAfterCopy | buildSrc/src/main/resources/preprocess.py:9 | a position where no match starts does not become one once the rest is rewritten |
| HrefQuoting.NoMatchInQuotedSite | buildSrc/src/main/resources/preprocess.py:9 | a rewritten site `<a href="V"` holds no match at any of its positions |
| HrefQuoting.RewriteHasNoMatch | buildSrc/src/main/resources/preprocess.py:9 | the pattern matches nowhere in the output |
| HrefQuoting.RewriteIdempotent | buildSrc/src/main/resources/preprocess.py:9 | applying the rewrite to its own output changes nothing |
| HrefQuoting.AlreadyQuotedKept | buildSrc/src/main/resources/preprocess.py:9 | a value already beginning with `"` is never matched: the `<` is copied and the text up to the quote stays |
| HrefQuoting.OneCharacterValueKept | buildSrc/src/main/resources/preprocess.py:9 | `<a href=x>` is not matched, since `[^\s>]+` needs one more character |
| HrefQuoting.QuotesUnquotedValue | buildSrc/src/main/resources/preprocess.py:9 | `<a href=foo>` becomes `<a href="foo">` |
| HrefQuoting.AttributeTailKept | buildSrc/src/main/resources/preprocess.py:9 | ` href=yy>` has no `<` and is kept as it is |
| HrefQuoting.RewriteMatchThenRest | buildSrc/src/main/resources/preprocess.py:9 | `<a href=` + c + a maximal value run is quoted as a whole, and the rest is rewritten on its own |
| HrefQuoting.MatchesDoNotOverlap | buildSrc/src/main/resources/preprocess.py:9 | matches do not overlap: in `<a href=x<a href=yy>` the inner `<a href=` loses its `<a` to the first match and is not rewritten |
| HrefQuoting.RunLengthIs | buildSrc/src/main/resources/preprocess.py:9 | a run of value characters ended by whitespace, `>` or the end is the greedy run |
| HrefQuoting.MatchEndAtCursor | buildSrc/src/main/resources/preprocess.py:9 | the in-place test at a cursor and the in-place value run give the match and its end |
| HrefQuoting.RewriteAtMatch | buildSrc/src/main/resources/preprocess.py:9 | at a cursor where the pattern matches, the rewrite of the remaining text is the quoted site followed by the rewrite after the run |
| HrefQuoting.RewriteAtCopy | buildSrc/src/main/resources/preprocess.py:9 | at a cursor where the pattern does not match, one character is copied |
| HrefQuoting.ValueRunEnd | buildSrc/src/main/resources/preprocess.py:9 | the greedy `[^\s>]+` found in place: all value characters up to the end, stopped by whitespace, `>` or the end of the text |
| HrefQuoting.QuoteHrefs | buildSrc/src/main/resources/preprocess.py:9 | the cursor loop's result is exactly the substitution's result |

## Left out

- Reading and parsing `entities.json` and writing `entities.txt`
  (extract_entities.py:4-5, 8) are file I/O and JSON parsing. The table is
  a sequence of entries in document order. Keys repeated in the document
  are not modelled.
- `extract_entities` ignores its `input_file` and `output_file` parameters
  and uses fixed file names. The model has no parameters for them.
- The other substitutions of `fix_html5_table` (preprocess.py:8, 10, 15,
  16) use `DOTALL`, tempered lookaheads and nested backtracking. They would
  need a backtracking regular-expression engine to model.
- The file reads and writes of `fix_html5_table` (preprocess.py:4-5, 18-19)
  are I/O. The substitution is modelled on the text itself.
- The rest of build.gradle.kts is declarative Gradle configuration: targets,
  publishing and credentials from the environment, signing, the Jar
  manifest, task wiring, the `Download` tasks (network), the `Exec` tasks
  (external scripts) and the `generate` task (generator code that is not
  part of this model).
- `logger.lifecycle` (build.gradle.kts:43) only logs and is left out.
- The `as String` casts (build.gradle.kts:27, 39, 50) are left out: the
  version and `releaseVersion` are strings in the model.
- `hasProperty("release")` tests presence only. `release` is therefore a
  boolean, and its value is never read.
- `versionTag` is a string in the model. Kotlin's string template formats
  the property value with `toString`.
- ReleaseStripsSnapshot: stated only for a version whose one "-SNAPSHOT" is
  its suffix. With several occurrences every one is deleted;
  ReleaseDeletesSnapshots states the general case through `ReplaceSnapshot`.
- VersionTagReplacesSnapshot: stated only for a version whose one
  "-SNAPSHOT" is its suffix. Otherwise every occurrence is replaced, as
  `Resolve` and `ReplaceSnapshot` define.
- ReleaseWithVersionTagFails: stated only for a version whose one
  "-SNAPSHOT" is its suffix. Deleting several occurrences can leave a new
  "-SNAPSHOT" suffix, as in "-SNAP-SNAPSHOTSHOT-SNAPSHOT", and then
  `versionTag` succeeds; ReleaseThenVersionTagCanSucceed states this case.
- The build's error is modelled as the `Failed` outcome carrying the
  message. Gradle's exception and the abort of the rest of the script are
  not modelled.
