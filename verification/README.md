# FocusMobile leaderboard aggregation in Dafny

FocusMobile records focus sessions in a Firebase store. Its leaderboard page calls
`get_data` (main.py:15-68), which turns the stored session documents into the rows the page
shows. This project models `get_data` as pure functions and proves what the board it returns
contains. There are four steps:

1. **Reading a document** (main.py:23-30). The user name defaults to `"Unknown"`, the
   duration text to `"0 min"`, and the task count to 0. The minutes are
   `int(str(dur).split()[0])`, and any failure counts as 0 (module `Duration`, on the Python
   string and integer rules of module `Text`).
2. **Grouping by user** (main.py:21-42). Per-user running totals live in a dictionary. The
   dictionary keeps users in the order they are first seen (module `Grouping`).
3. **Display text** (main.py:46-61). `divmod(total, 60)` gives hours and minutes. The text is
   `"{h}h {m}m"` when there is at least one hour and `"{m} min"` otherwise. Python's `divmod`
   floors, so a negative total of -5 minutes shows as `"55 min"`.
4. **Sorting** (main.py:64). The entries are sorted by minutes from high to low. Python's
   sort is stable, and so is the insertion sort of module `Sorting`: users with equal minutes
   keep their first-seen order.

`Leaderboard.GetData` puts the steps together. A missing or empty snapshot gives an empty
board (main.py:17-18). `Examples` works through a small leaderboard: user A has a 30-minute and
a 45-minute session, and user B has one of 10 minutes.

Modules: `Wrappers` (Option), `Seqs` (index, map, sums), `Text`, `Duration`, `Records`,
`Grouping`, `Sorting`, `Leaderboard`, `Examples`.

Two behaviours of the code follow from these steps:

- Users with equal minutes keep the order in which they were first seen.
  `Leaderboard.AggregateTies` proves it.
- A signed duration such as `"-30 min"` is accepted, so a total can be negative. A negative
  total shows only its remainder modulo 60.

## Model

| member | source | states |
|---|---|---|
| Text.FirstToken | main.py:29 | `split()[0]` exists exactly when the text is not all whitespace; the token is non-empty and holds no whitespace |
| Text.FirstTokenOf | main.py:29 | the first token of leading whitespace, a word and a rest starting with whitespace is that word |
| Text.ParseInt | main.py:29 | `int(t)` succeeds exactly on an optionally signed run of ASCII digits |
| Text.ParseIntOfString | main.py:29 | `int(str(i)) == i` for every integer the model admits (it has no digit limit), and `str(i)` is a single token |
| Text.ParseIntValue | main.py:29 | `int` of a digit run is its value; a leading `+` keeps it and a leading `-` negates it |
| Text.ParseIntLeadingZero | main.py:29 | a leading zero does not change the value: `int("0" + d) == int(d)` |
| Text.ParseMinusZeroExample | main.py:29 | `int("-0")` is 0 |
| Text.NatToString | main.py:52-54 | the decimal text of n is digits denoting n, with no leading zero unless it is the single digit 0 |
| Text.UnpaddedIsNatToString | main.py:52-54 | every unpadded digit run is the decimal text of its value, so the decimal text is the only unpadded spelling |
| Duration.ParseMinutes | main.py:29-30 | a blank duration gives 0; a non-zero result needs a first token that is an integer literal |
| Duration.ParseMinutesReadsInt | main.py:29 | a duration whose first token is the integer i reads as i, whatever whitespace precedes it and whatever follows it |
| Duration.ParseMinutesToken | main.py:29-30 | a duration reads as `int()` of its first token, whatever whitespace precedes it and whatever follows it, and 0 when `int()` raises |
| Duration.ParseMinutesNonNumeric | main.py:29-30 | a duration whose first token is not an integer reads as 0 |
| Duration.DefaultDurationIsZero | main.py:25 | the default duration `"0 min"` counts as no time |
| Duration.ParseWordExample | main.py:29-30 | `"abc min"` reads as 0 |
| Duration.ParseNumberExample | main.py:29 | `"45 min"` reads as 45 |
| Duration.ParseNegativeExample | main.py:29 | `"  -30 min"` reads as -30 |
| Duration.ParsePaddedExample | main.py:29 | `"007 min"` reads as 7 |
| Duration.ParsePlusExample | main.py:29 | `"+5 min"` reads as 5 |
| Duration.FormatMinutes | main.py:50-54 | the display holds an `h` exactly when the total is at least an hour, and ends in `m` or `n` |
| Duration.FormatCanonical | main.py:50-54 | every display is canonical: unpadded numbers, minutes below 60, and at least one hour in the hour form |
| Duration.FormatCharacterised | main.py:50-54 | for a non-negative total, a text is its display exactly when the text is canonical and reads back as that total |
| Duration.DisplayOfCanonical | main.py:50-54 | every canonical text reads back as some total whose display is that text |
| Duration.FormatReadBack | main.py:50-54 | reading a display back gives the total for any non-negative total, and the floor remainder for a negative one |
| Duration.HourDisplayReadBack | main.py:51-52 | `"{h}h {m}m"` reads back as 60 h + m, the total it was made from |
| Duration.MinuteDisplayReadBack | main.py:53-54 | `"{m} min"` reads back as the floor remainder of the total |
| Duration.ReadsHourForm | main.py:52 | any digits h and m in the hour form read back as 60 h + m |
| Duration.ReadsMinuteForm | main.py:54 | any digits m in the minute form read back as m |
| Duration.ParseFormatted | main.py:50-54 | reading a display with the duration parser gives 0 for the hour form and the floor remainder for the minute form |
| Duration.RoundTripBelowHour | main.py:50-54 | parsing the display of a total between 0 and 59 gives the total back |
| Duration.ParseHourForm | main.py:29-30 | the hour form's first token `"{h}h"` is not an integer, so it parses as 0 |
| Duration.FormatHourExample | main.py:50-52 | 75 minutes shows as `"1h 15m"` |
| Duration.FormatTwoHoursExample | main.py:50-52 | 125 minutes shows as `"2h 5m"`, without zero padding |
| Duration.FormatNegativeExample | main.py:50-54 | -5 minutes shows as `"55 min"` |
| Records.ReadAll | main.py:23-30 | one reading per stored document, in the order `r.values()` lists them, each read as `Records.Read` reads it |
| Records.Read | main.py:24-30 | a document's name, minutes and task count, with `"Unknown"`, 0 and 0 when the field is missing |
| Records.UserSumsStep | main.py:41-42 | one more document adds its minutes and tasks to its own user and to nobody else |
| Records.ReadingsOfAbsent | main.py:33-38 | a user not seen has no documents |
| Grouping.Accumulate | main.py:33-42 | a known user keeps the key list as it is; a new user is appended at the end with the reading's minutes and tasks; with distinct keys, the user's own entry gains the reading's minutes and tasks and every other entry is unchanged |
| Grouping.AccumulateSums | main.py:41-42 | one pass adds exactly the document's minutes and tasks to the sums over all entries |
| Grouping.Group | main.py:21-42 | one entry per user, no user twice, exactly the users of the documents, never more entries than documents, and at least one entry when there is a document |
| Grouping.GroupTotals | main.py:41-42 | each entry's totals are the sums over exactly that user's documents |
| Grouping.GroupConserves | main.py:41-42 | the entries' totals add up to the totals over all documents |
| Grouping.GroupOrder | main.py:33-38 | entries are in the order their users first appear |
| Sorting.Insert | main.py:64 | insertion adds exactly the one element |
| Sorting.Sort | main.py:64 | the result is a permutation of the input, ordered by key from high to low |
| Sorting.SortStable | main.py:64 | the elements with one key keep their input order |
| Sorting.SortRanked | main.py:64 | input listed by rank gives output ordered by key, equal keys by rank |
| Sorting.SortPreservesSum | main.py:64 | any sum over the elements is unchanged by sorting |
| Sorting.SortDistinctBy | main.py:64 | sorting neither merges nor duplicates elements |
| Leaderboard.ToEntry | main.py:47-61 | a row keeps its user's name, minutes and tasks; its time text is exactly the display of the minutes (pinned by `Duration.FormatCharacterised`) and reads back as the minutes, or their floor remainder when negative |
| Leaderboard.Entries | main.py:45-61 | `final_list` has one row per value of `user_stats`, in the same order; each row is that user's `ToEntry` (name, totals and display text), so the rows name the users of `user_stats` with their own totals |
| Leaderboard.Aggregate | main.py:21-64 | the board is ordered by minutes from high to low, is empty exactly for no documents, and has at most one row per document |
| Leaderboard.GetData | main.py:17-18 | the board is empty exactly when the snapshot is missing or empty |
| Leaderboard.AggregateUsers | main.py:46-61 | the board names exactly the users of the documents, each once |
| Leaderboard.AggregateTotals | main.py:56-61 | each row carries its user's summed minutes and tasks and shows those minutes as the display text |
| Leaderboard.EntriesSums | main.py:56-61 | building the rows keeps every total |
| Leaderboard.AggregateConserves | main.py:41-64 | the board's minutes and tasks add up to those of all documents |
| Leaderboard.AggregateTies | main.py:64 | rows with equal minutes are in the order their users first appear |
| Examples.ReadExample | main.py:23-30 | the three example documents read as A 30/1, A 45/2, B 10/0 |
| Examples.GroupExample | main.py:21-42 | A's two sessions merge into 75 minutes and 3 tasks; B follows |
| Examples.GetDataExample | main.py:15-64 | the example board is A "1h 15m" 75/3, then B "10 min" 10/0 |

## Left out

- Fetching the snapshot with `requests.get` and decoding the JSON (main.py:12, 17) is network
  I/O. The snapshot is an input: absent, or the store's documents in the order
  `r.values()` lists them.
- The catch-all `except` that prints the error and returns `[]` (main.py:66-68) is not
  modelled. It fires on a failed request and on field values of an unexpected type. It also
  fires when the snapshot is a JSON array or a scalar, since `r.values()` (main.py:23) needs an
  object. Firebase returns an array when the keys are small integers. It also fires when any
  stored document is not an object, since `v.get` (main.py:24) fails. One such document empties
  the whole board. The model's snapshot is always a collection of typed documents.
- A field present with a non-string or null value is not modelled. A JSON `null` username
  becomes the key `None`, not `"Unknown"`, and a numeric duration is converted with `str`. The
  model's fields are either absent or a string (an integer for the task count).
- Text.ParseInt: `int()` also accepts `_` digit separators and non-ASCII decimal digits. The
  model accepts only an optional sign and ASCII digits, so such tokens read as 0 here.
- Text.ParseInt: CPython 3.11 and later, and the 2022 security releases 3.10.7, 3.9.14, 3.8.14
  and 3.7.14, refuse to convert a decimal text of more than 4300
  digits, so `int()` raises on such a token and the minutes become 0. The model has no digit
  limit. The same limit makes `divmod` results that long fail in the f-strings at main.py:52
  and main.py:54, so the outer `except` returns `[]`. The model shows such a total.
- The page code is rendering only and is not modelled: `build_leaderboard`, the rank colours
  and crown for the first three places, the cards and header, and `ft.app` (main.py:71-135).
- `get_data` keeps no state between calls, since `user_stats` is created fresh on every call.
  The model states this by being pure functions rather than by a lemma.
- Duration.FormatMinutes: its own contract fixes only the shape of the text. That the text is
  canonical is stated by the separate lemma `Duration.FormatCanonical`. Together with
  `Duration.FormatReadBack`, that pins down every character (`Duration.FormatCharacterised`).
  The lemma form keeps the proofs about other displays from unfolding `Canonical`.
