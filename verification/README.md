# SQL response cleaner, modelled in Dafny

The SQL query generator asks a hosted language model for a SQL statement and
cleans the model's reply before running it. The cleaner,
`clean_sql_query`, works in four steps:

1. it deletes every opening Markdown fence: three backticks, an optional
   `sql` tag in any letter case, and the whitespace after them
   (`` re.sub(r"```(?:sql)?\s*", "", …, flags=re.IGNORECASE) ``);
2. it deletes every closing fence: a whitespace run and three backticks
   (`` re.sub(r"\s*```", "", …) ``);
3. it trims whitespace from both ends (`strip()`);
4. it appends `;` unless the text already ends with one.

The backend's copy appends the semicolon only to non-empty text. The
front end's copy in `app.py` appends it always, so there an empty result
becomes a lone `;`. Both copies are modelled, together with how they relate.

Files:

- `text.dfy`, module `Text`: whitespace, `lstrip`/`rstrip`/`strip`, and how
  `strip` treats whitespace put in front of or after a text.
- `fence_patterns.dfy`, module `FencePatterns`:
  - the two regular expressions, each given two ways: by the language of
    strings it matches (`IsToken`), and by the match the regex engine picks
    at a position (`Match`);
  - Python's `re.sub` with an empty replacement, as a recursive function
    (`Substitute`), with the same recursion also written as the engine's
    left-to-right loop (`SubstituteScan`);
  - the facts about the opening pass that the cleaner needs.
- `sql_cleaner.dfy`, module `SqlCleaner`: the backend cleaner and its
  properties, including the two cases from its test file.
- `app_cleaner.dfy`, module `AppCleaner`: the front end's cleaner and its
  agreement with the backend's.

Some decisions in the model:

- **The engine's choice of match.** `re.sub` scans from the left. At each
  position it either deletes a match and continues after it, or keeps one
  character. At one position it takes the match the regex engine finds.
  - For the opening pattern, the engine takes the tag when one is present,
    because the optional group is tried first and `\s*` can always follow.
    It then takes the whole whitespace run.
  - For the closing pattern, the whitespace run must be the longest one.
    Backing off to a shorter run cannot help, because a backtick is not
    whitespace.

  `FencePatterns.MatchIsLongestToken` proves that this choice is the
  longest prefix the pattern's language contains.
- **Case-insensitive matching.** Under `re.IGNORECASE` on `str` patterns,
  Python also matches `s` with U+017F (LATIN SMALL LETTER LONG S). `q` and
  `l` match only their ASCII cases. `MatchesS` includes the long s.
- **The closing pass does nothing.** The opening pass deletes every run of
  three backticks and never joins kept pieces into a new one.
  `OpeningPassRemovesEveryFence` proves this, so the closing pass never
  finds a match on its output (`ClosingPassIsRedundant`). The closing pass
  is still modelled in full. Run on other text, it can itself join
  backticks into a new fence.
- **Semicolons are added, never removed.** A trimmed text that already
  ends with `;;` is returned as it is, so a cleaned statement can end in
  more than one semicolon. `NoDoubleSemicolon` states what the code does
  promise: an existing terminator is never doubled, and at most one
  semicolon is added.
- **A closing fence may touch the statement.** In a reply such as
  `` ```sql\nSELECT 1``` `` the closing fence follows the statement on its
  line. If the statement itself ends with backticks, they join the fence
  into a longer run, and the opening pass deletes a different three of
  them. The same number of backticks survives either way, so the result is
  unchanged (`OpeningPassBareTail`).

## Model

| member | source | states |
|---|---|---|
| Text.Strip | backend/app/utils/sql_cleaner.py:6 | `strip()` leaves no whitespace at either end; it returns the empty string exactly when the input is all whitespace; text without edge whitespace is returned unchanged |
| Text.StripBlankPrefix | backend/app/utils/sql_cleaner.py:6 | whitespace put in front of a text does not change what `strip()` returns |
| Text.StripBlankSuffix | backend/app/utils/sql_cleaner.py:6 | whitespace put after a text does not change what `strip()` returns |
| FencePatterns.Substitute | backend/app/utils/sql_cleaner.py:4-5 | `re.sub` with an empty replacement never makes the text longer (what it deletes is stated by the lemmas below) |
| FencePatterns.Match | backend/app/utils/sql_cleaner.py:4-5 | a match is never empty and stays inside the text; an opening match begins with three backticks, a closing match ends with them; where the text starts with three backticks, each pattern matches |
| FencePatterns.MatchIsLongestToken | backend/app/utils/sql_cleaner.py:4-5 | the match the engine picks is a string of the pattern's language, and no longer prefix is one (the tag and `\s*` are greedy); where it finds no match, no prefix is in the language |
| FencePatterns.SubstituteScan | backend/app/utils/sql_cleaner.py:4-5 | the left-to-right scan of `re.sub` (delete a match and resume after it, or keep one character), written as a loop, computes the same text as the recursive definition; both follow the same recursion |
| FencePatterns.SubstituteFixesFenceFree | backend/app/utils/sql_cleaner.py:4-5 | neither substitution changes text that holds no three consecutive backticks |
| FencePatterns.OpeningPassRemovesEveryFence | backend/app/utils/sql_cleaner.py:4 | after the opening pass no three consecutive backticks remain anywhere, not only at the ends |
| FencePatterns.OpeningPassBlankPrefix | backend/app/utils/sql_cleaner.py:4 | whitespace at the start of the text passes through the opening pass unchanged |
| FencePatterns.OpeningTokenThenText | backend/app/utils/sql_cleaner.py:4 | a whole opening fence (tag and whitespace included) is deleted together with the whitespace that follows it |
| FencePatterns.OpeningPassClosingTail | backend/app/utils/sql_cleaner.py:4 | a closing fence after whitespace at the end of any text is deleted by the opening pass; at most the one whitespace character before it survives |
| FencePatterns.OpeningPassBareTail | backend/app/utils/sql_cleaner.py:4 | a closing fence written straight after any text, with only whitespace after it, is deleted by the opening pass: what remains is what the text alone leaves, followed by whitespace, even when the text ends with backticks |
| FencePatterns.StripKeepsNoFence | backend/app/utils/sql_cleaner.py:6 | trimming cannot create a fence |
| SqlCleaner.Terminate | backend/app/utils/sql_cleaner.py:7-8 | the result is empty exactly when the input is; otherwise it ends with `;`; it extends the input by at most one character; input ending with `;` is returned as it is |
| SqlCleaner.CleanSqlQuery | backend/app/utils/sql_cleaner.py:3-9 | the cleaned text holds no fence, has no edge whitespace, and is empty or ends with `;`; it is empty exactly when the opening pass leaves only whitespace |
| SqlCleaner.StripMarkup | backend/app/utils/sql_cleaner.py:4-6 | after the three markup steps no fence and no edge whitespace remain; the result is what `strip()` makes of the opening pass alone; it is empty exactly when the opening pass leaves only whitespace |
| SqlCleaner.ClosingPassIsRedundant | backend/app/utils/sql_cleaner.py:4-5 | the closing-fence pass never changes what the opening-fence pass returns |
| SqlCleaner.NoDoubleSemicolon | backend/app/utils/sql_cleaner.py:7-8 | if the fence-free, trimmed text ends with `;` it is returned as it is; in every case the result is that text or that text plus one `;` |
| SqlCleaner.NothingElseChanges | backend/app/utils/sql_cleaner.py:4-8 | text with no fence is only trimmed and terminated |
| SqlCleaner.WhitespaceOnlyCleansToEmpty | backend/app/utils/sql_cleaner.py:6-8 | empty and whitespace-only input gives the empty string, with no semicolon |
| SqlCleaner.FencesOnlyCleansToEmpty | backend/app/utils/sql_cleaner.py:4-8 | input made only of opening fences (any tag case) and whitespace gives the empty string |
| SqlCleaner.TagCaseInsensitive | backend/app/utils/sql_cleaner.py:4 | a fence whose tag is `sql` in any letter case cleans exactly as one tagged `sql`, whatever follows |
| SqlCleaner.FencedStatement | backend/app/utils/sql_cleaner.py:3-9 | a statement between an opening fence (optional tag, any case) and a closing fence, with or without whitespace before the closing fence, cleans to what the bare statement cleans to |
| SqlCleaner.CleanFixedPoints | backend/app/utils/sql_cleaner.py:3-9 | the cleaner returns its input unchanged exactly when the input is fence-free, has no edge whitespace, and is empty or ends with `;` |
| SqlCleaner.CleanIdempotent | backend/app/utils/sql_cleaner.py:3-9 | cleaning a cleaned text changes nothing |
| SqlCleaner.RemovesMarkdownAndAddsSemicolon | backend/tests/test_sql_cleaner.py:4-11 | the fenced, tagged `SELECT * FROM STUDENT` on lines of its own cleans to `SELECT * FROM STUDENT;` |
| SqlCleaner.ClosingFenceAfterStatement | backend/app/utils/sql_cleaner.py:3-9 | `` ```sql\nSELECT 1``` ``, with the closing fence on the statement's line, cleans to `SELECT 1;` |
| SqlCleaner.BareFenceTakesTag | backend/app/utils/sql_cleaner.py:4 | after a bare fence, a statement starting with `sql` loses those letters as a tag: `` ```sqlx``` `` cleans to `x;` |
| SqlCleaner.PreservesSemicolon | backend/tests/test_sql_cleaner.py:14-16 | `SELECT COUNT(*) FROM STUDENT;` is returned unchanged |
| AppCleaner.AppendSemicolon | app.py:34-35 | the result always ends with `;`, the empty input included; it extends the input by at most one character; input ending with `;` is returned as it is |
| AppCleaner.AppCleanSqlQuery | app.py:20-37 | the front end's cleaned text always ends with `;`, holds no fence and has no edge whitespace; it is `;` when the opening pass leaves only whitespace |
| AppCleaner.AppAgreesWithBackend | app.py:27-35 | the front end returns what the backend returns, except `;` where the backend returns the empty string |
| AppCleaner.AppNoDoubleSemicolon | app.py:34-35 | if the fence-free, trimmed text already ends with `;`, the front end returns it as it is |
| AppCleaner.AgreementIsNonEmptyText | app.py:34-35 | the two cleaners return the same string exactly when the fence-free, trimmed text is non-empty |
| AppCleaner.AppWhitespaceOnly | app.py:31-35 | empty and whitespace-only input gives `;` |
| AppCleaner.AppFencesOnly | app.py:27-35 | input made only of opening fences and whitespace gives `;` |
| AppCleaner.AppFixedPoints | app.py:20-37 | the front end's cleaner returns its input unchanged exactly when the input is non-empty, ends with `;`, is fence-free and has no edge whitespace |
| AppCleaner.AppIdempotent | app.py:20-37 | cleaning a cleaned text changes nothing, `;` included |

## Left out

- Whitespace is modelled as the ASCII set: space, tab, line feed, vertical
  tab, form feed and carriage return. On `str`, Python's `\s` and `strip()`
  both use the same larger Unicode whitespace table, which is not modelled.
  That table adds the separators U+001C to U+001F, U+0085, the no-break
  space, and the other Unicode spaces and line separators.
- Case-insensitive matching is modelled only for the letters of the tag;
  Unicode case folding in general is not modelled.
- The language-model call that produces the raw text (`get_gemini_response`
  in `app.py`, and the backend's model service) is not modelled. It is a
  network call; the model takes its reply as the input string.
- Running the cleaned statement against SQLite, the HTTP API routes and
  their error mapping, the settings loader, and the Streamlit page are not
  modelled. They are I/O and framework glue around the cleaner.
- FencePatterns.Substitute: its own contract states only that the output
  is no longer than the input, because the recursion is the definition of
  `re.sub`. What it computes is stated by `MatchIsLongestToken` (the match
  taken at each position) and the opening-pass lemmas; `SubstituteScan`
  only restates the same recursion as a loop.
- SqlCleaner.FencedStatement: the opening fence must be longer than the
  bare three backticks. Otherwise a statement that starts with the letters
  `sql` in any case loses them as a tag: `` ```sqlx``` `` cleans to `x;`,
  not `sqlx;` (`BareFenceTakesTag`).
