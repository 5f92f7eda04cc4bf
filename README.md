# yacut short codes, modelled in Dafny

yacut is a URL shortener: a row of the `url_map` table maps a short code to an
original URL. This project models the part that decides which short codes may
exist:

- **the table** (`yacut/models.py`, module `Models`): the `URLMap` row, the
  column constraints (primary-key `id`, `original` of at most 2048 characters,
  `short` of at most 16 characters and unique), the lookup
  `filter_by(short=...).first()`, and the projections `to_dict` and `__repr__`;
- **custom-code validation** (`yacut/forms.py`, module `Forms`):
  `URLForm.validate_custom_id`, which strips the candidate and then applies the
  reserved-word check, the length/pattern check and the existence check in that
  order, each with its own message;
- **code generation** (`yacut/utils.py`, module `Utils`): `get_unique_short_id`,
  which draws codes of `length` characters (6 by default) from the 62 ASCII
  letters and digits until one is not in the table.

Module `Text` models the Python string operations these rely on (`str.isspace`,
`str.strip`, `str.lower`, `s[:n]`); module `Allocation` holds the lemmas that
relate the three parts; `Wrappers` holds `Option` and `Result`.

The table is a `map` from `short` to its row, so uniqueness of `short` is the
map's key property and the other constraints are the predicate `ValidTable`.
Validation and the projections are functions over that value, so validation
cannot change the table; generation receives the table as a value and only
queries it. Generation is a
method with a loop. Its random source is a parameter `pick`: character `j` of
attempt `a` is `Alphabet[pick(a, j) % 62]`, and every alphabet string is what
some source draws, and so is every sequence of such strings over successive
attempts (`EveryDrawSequencePossible`). The source loops with
`while True` and no cap. A loop that cannot run forever needs a bound, so the
method takes `fuel`, the number of attempts it looks at. `None` means none of
those attempts was fresh; it is not an error the source reports.
`FirstFreshFuelMonotone` shows that more fuel never changes an answer already
found. `SaturatedTableNeverYields` shows that a full table makes every bound
fail, which is where the source's loop would not terminate.

Four behaviours of the code that a reader might not expect:
- empty or missing custom input is accepted, not rejected (`forms.py:47-48`);
- generation checks only the table, not the reserved words
  (`ReservedDrawableAtLengthFive`). With the default length 6 it never draws a
  reserved word anyway (`DefaultDrawNotReserved`);
- generation has no attempt cap and no exhaustion error (`utils.py:14`);
- a reserved candidate gets the same "already exists" message as a taken one
  (`forms.py:51-53`).

Two Python details are made explicit. First, without `re.MULTILINE`, `$` in
`^[A-Za-z0-9]+$` also matches just before a final newline. `AllowedReMatches`
keeps that behaviour, and `StrippedReMatches` shows that stripping first makes
it unreachable. Second, `lower()` is modelled on ASCII only. For the test
`candidate.lower() in {"files"}` this gives the same answer as Python. The only
non-ASCII character whose `lower()` is ASCII is the Kelvin sign, and it becomes
`k`, which is not a letter of `files`.

## Model

| member | source | states |
|---|---|---|
| `Text.IsSpace` | yacut/forms.py:49 | the whitespace `strip()` removes: Python's `isspace` set, which includes space, tab, newline and carriage return and holds no character of `[A-Za-z0-9]` |
| `Text.Strip` | yacut/forms.py:49 | `strip()` yields the slice of the input left after dropping leading and trailing whitespace (Python's `isspace` set): it is empty exactly when the input is all whitespace, otherwise it starts and ends with a non-space, and every character dropped is whitespace |
| `Text.StripIdempotent` | yacut/forms.py:49 | stripping a stripped candidate changes nothing |
| `Text.StripWithoutSpaces` | yacut/forms.py:49 | a string without whitespace is its own strip |
| `Text.LowerChar` | yacut/forms.py:50 | lowering maps an ASCII upper-case letter to its lower-case letter and leaves every other character alone |
| `Text.AsciiLower` | yacut/forms.py:50 | `lower()` keeps the length and lowers each character in place; its partner `Text.LowerIsFilesIff` characterises when the result is `files` |
| `Text.LowerIsFilesIff` | yacut/forms.py:50 | lowering gives `files` exactly for five-character strings whose every character is the lower- or upper-case form of the letter of `files` at that place |
| `Text.Truncate` | yacut/models.py:17 | `s[:n]` is the prefix of `s` of length `min(len(s), n)` |
| `Models.ValidTable` | yacut/models.py:9-11 | the table invariant: every row sits under its own `short` and fits the column sizes, ids are distinct; so every key of a valid table has at most 16 characters |
| `Models.Insert` | yacut/models.py:9-11 | the table admits a row exactly when its `short` is new and the grown table still meets every column constraint (sizes, unique `short`, unique `id`); an admitted row is added and nothing else changes; a duplicate `short` that fits is reported as such |
| `Models.FindByShort` | yacut/forms.py:62 | `filter_by(short=s).first()` finds a row exactly when the table holds `s`, and the row found has that `short` |
| `Models.UniqueShort` | yacut/models.py:11 | no two rows of a valid table share a `short` |
| `Models.UniqueId` | yacut/models.py:9 | distinct rows of a valid table have distinct ids |
| `Models.RowsFitColumns` | yacut/models.py:10-11 | every stored row has `short` of at most 16 and `original` of at most 2048 characters |
| `Models.ToDict` | yacut/models.py:19-20 | `to_dict()` has exactly the keys `url` and `short_link`, holding `original` and `short` |
| `Models.ToDictInjective` | yacut/models.py:19-20 | two rows give the same dictionary exactly when they agree on `original` and `short` (the id is not exposed) |
| `Models.Repr` | yacut/models.py:16-17 | `__repr__()` is the head, the full `short`, the middle and at most the first 60 characters of `original` (all of it when it is that short), then `>`; its length is bounded accordingly |
| `Models.ReprDeterminesShort` | yacut/models.py:16-17 | for codes without spaces, equal representations mean equal `short` values |
| `Forms.Message` | yacut/forms.py:50-65 | a reserved or taken candidate gets the "already exists" message and a malformed one the "invalid name" message, and the two messages differ |
| `Forms.AllowedReMatches` | yacut/forms.py:54-56 | `re.match(ALLOWED_RE, s)` never matches the empty string, and on a string not ending in a newline it matches exactly when every character is in `[A-Za-z0-9]` |
| `Forms.IsReserved` | yacut/forms.py:50 | `candidate.lower() in RESERVED_IDS` holds exactly for the case variants of `files` |
| `Forms.StrippedReMatches` | yacut/forms.py:54-56 | on a stripped candidate, `re.match(ALLOWED_RE, ...)` succeeds exactly for non-empty strings of `[A-Za-z0-9]` (the trailing-newline case of `$` cannot arise) |
| `Forms.ReservedIsShortCode` | yacut/forms.py:50 | anything matching a reserved word ignoring case has length 5 and is alphanumeric, so the reserved and format checks never overlap |
| `Forms.EmptyInputAccepted` | yacut/forms.py:47-48 | missing or empty input is accepted against every table |
| `Forms.ValidateCustomId` | yacut/forms.py:45-65 | a candidate is accepted exactly when the input is missing or empty, or its stripped form is 1-16 alphanumeric characters, is not reserved, and is not in the table; which check rejects it is stated by `ReservedRejected`, `MalformedRejected`, `TakenRejected` and `StoreConsultedLast` |
| `Forms.StripBeforeChecks` | yacut/forms.py:49 | when the stripped candidate is non-empty, validating the raw input and validating its stripped form give the same verdict |
| `Forms.WhitespaceOnlyMalformed` | yacut/forms.py:49-59 | non-empty input made only of whitespace is rejected as malformed |
| `Forms.ReservedRejected` | yacut/forms.py:50-53 | any input whose stripped form is a case variant of `files` (see `Forms.IsReserved`, `Text.LowerIsFilesIff`) is rejected as reserved, with the "already exists" message |
| `Forms.MalformedRejected` | yacut/forms.py:54-59 | a stripped candidate longer than 16 characters or with a character outside `[A-Za-z0-9]` is rejected as malformed, with the "invalid name" message |
| `Forms.TakenRejected` | yacut/forms.py:62-65 | a well-formed, non-reserved candidate that the table holds is rejected as taken, with the "already exists" message |
| `Forms.StoreConsultedLast` | yacut/forms.py:50-65 | a reserved or malformed candidate gets the same verdict against any two tables, and that verdict is never "taken" |
| `Forms.TakenOnlyAfterOtherChecks` | yacut/forms.py:50-65 | a "taken" verdict implies the stripped candidate is well formed, not reserved, and in the table |
| `Forms.ReservedExamples` | yacut/forms.py:49-53 | `"FILES"`, `"Files"` and `" Files "` are all rejected as reserved |
| `Utils.AsciiConstantsLiteral` | yacut/utils.py:6 | the alphabet is `ascii_lowercase + ascii_uppercase + digits` with those exact contents, 62 characters |
| `Utils.AlphabetIsAsciiAlnum` | yacut/utils.py:6 | a character is in the alphabet exactly when it is in `[A-Za-z0-9]` |
| `Utils.Draw` | yacut/utils.py:15 | every candidate has exactly `length` characters, each from the alphabet |
| `Utils.EveryDrawSequencePossible` | yacut/utils.py:14-15 | every finite sequence of alphabet strings of length `length` is what some random source draws at attempts 0, 1, 2, ..., so the model constrains the draws no more than `random.choices` does |
| `Utils.FirstFresh` | yacut/utils.py:14-17 | the attempt the loop stops at, if any, lies within the bound and its draw is not in the table |
| `Utils.FirstFreshSome` | yacut/utils.py:14-17 | an attempt the loop stops at is within the bound and fresh, and every earlier attempt was taken |
| `Utils.FirstFreshNone` | yacut/utils.py:14-17 | the loop finds nothing within the bound exactly when every attempt in the bound was taken |
| `Utils.FirstFreshFuelMonotone` | yacut/utils.py:14 | a larger bound returns the same attempt once one is found: the bound only limits observation |
| `Utils.SaturatedTableNeverYields` | yacut/utils.py:14 | if the table holds every code of the length, no bound ever yields a code (the source loop does not terminate) |
| `Utils.GetUniqueShortId` | yacut/utils.py:9-17 | a returned code (default length 6) has exactly `length` alphabet characters, is not in the table, and is the first fresh draw, every earlier one being taken; nothing is returned exactly when every attempt in the bound was taken; the table is only read |
| `Allocation.DrawIsAlnum` | yacut/utils.py:15 | drawn codes are alphanumeric and contain no whitespace |
| `Allocation.DefaultDrawNotReserved` | yacut/utils.py:9 | with the default length 6 a drawn code never matches the reserved word |
| `Allocation.ReservedDrawableAtLengthFive` | yacut/utils.py:14-17 | at length 5 some random source draws `files`: generation does not check reserved words |
| `Allocation.DrawPassesCustomChecks` | yacut/forms.py:50-65 | a drawn code of length 1-16 other than 5 passes the reserved and format checks of the custom-code validator; only the existence check can reject it |
| `Allocation.FreshDrawInsertable` | yacut/models.py:9-11 | a fresh drawn code of length at most 16, with a fitting `original` and an unused id, is admitted by the table |
| `Allocation.CustomCodeScenario` | yacut/forms.py:45-65 | `abc123` is accepted on an empty table and rejected as taken once a row holds it; `files` is rejected as reserved |

## Left out

- `yacut/async_upload.py`: the Yandex.Disk upload calls and `asyncio.gather`. This is network I/O and concurrency.
- `yacut/views.py` and `yacut/api_views.py`: Flask routes, templates and `flash`. Their helpers `URLMap.create`, `URLMap.get_by_short` and `short_url` are not part of this model, because their definitions are not in the files modelled.
- The Flask-WTF field validators on the form (`DataRequired`, `URL`, `Optional`, `Length`, `Regexp`) and `FilesForm`. These are library code; only the hand-written `validate_custom_id` is modelled.
- The `timestamp` column and its default `datetime.now(...)`. This is a clock read.
- The uniformity of `random.choices`. Draws are arbitrary, so nothing probabilistic is claimed.
- Null values. `original` and `short` are Dafny strings, so a row cannot hold a null, and `nullable=False` is met by typing. How the database enforces the declared column sizes depends on the engine; the model treats them as enforced.
- Utils.GetUniqueShortId: the `fuel` bound is not in the source. It limits how many attempts are looked at, so the method cannot state that the source's loop runs until a fresh code appears; `SaturatedTableNeverYields` states when it never does. A negative `length` (which Python treats as 0) is not modelled: `length` is a `nat`.
- Text.AsciiLower: lowers ASCII letters only, not full Unicode. This is exact for the reserved-word test, as explained above.
- Concurrency between the existence check and a later insert. The modelled code makes no insert.
