# Juriscraper court scrapers: Minnesota and Pennsylvania Superior Court

This project is a Dafny model of two opinion scrapers from Juriscraper.

The Minnesota scraper (`minn.Site`) does three things:

- It picks a publication status from its court query.
- It builds the search parameters for each date chunk of a backscrape.
- It turns the `div.searchresult` nodes of a result page, in document order,
  into opinion records appended to the site's `cases`. A record holds a date,
  a case name, a URL, a disposition, a summary and a docket. The first node
  whose lookups fail raises `IndexError`, and the nodes after it are not
  reached.

The Pennsylvania Superior Court scraper (`pasuperct.Site`) maps an opinion
object of the court's JSON feed to a status with `get_status`.

The model has three modules:

- `Py` (`py.dfy`) models the Python text built-ins the scrapers rely on, on
  `string`:
  - `str.split(sep)`, with `sep.join` used only to state that splitting
    loses nothing (the scrapers do not call `join`);
  - `strip()`, defined here through `lstrip` and `rstrip`, which the scrapers
    do not call themselves;
  - the argument-less `split()`;
  - `re.sub(r"\s+", " ", s)`;
  - `re.search(r"\d", s)`.

  A Dafny `string` is a sequence of Unicode scalar values; a Python `str` may
  also hold lone surrogates, which the model does not represent.

  It also holds the exceptions the modelled code can raise, as a `Result`
  datatype.
- `Minn` (`minn.dfy`) holds the pure extraction functions and the class
  `Site`. The class has the fields that the source updates in place: `status`,
  `baseParams`, `params` and `cases`.
- `PaSuperCt` (`pasuperct.dfy`) holds `GetStatus` over a JSON value datatype.

## Failing result nodes

`_process_html` catches nothing (minn.py lines 62-100). The first lookup that
fails, such as `[0]` on an empty XPath result or `[1]` on a date text without
a colon, raises `IndexError` out of the loop. The records appended before that
node stay in `cases`, and the nodes after it are not processed.

`Site.ProcessHtml` returns how many nodes it turned into records. When that
count is smaller than the number of nodes, the node at that position is the
one whose lookup raised.

## Model

| member | source | states |
|---|---|---|
| Py.Split | juriscraper/opinions/united_states/state/minn.py:75 | `str.split(sep)` yields at least one piece, and no piece contains the separator |
| Py.JoinSplit | juriscraper/opinions/united_states/state/minn.py:75 | joining the pieces of a split with the separator gives back the original text |
| Py.SplitJoin | juriscraper/opinions/united_states/state/minn.py:75 | splitting a join of separator-free pieces gives back exactly those pieces |
| Py.SplitCount | juriscraper/opinions/united_states/state/minn.py:76-77 | a split has one more piece than the text has separators, so `len(parts) > 2` means at least two dots |
| Py.SplitHead | juriscraper/opinions/united_states/state/minn.py:90 | the first piece is a prefix: the whole text if there is no separator, otherwise the part before the first one |
| Py.SplitLast | juriscraper/opinions/united_states/state/minn.py:90 | the last piece is a suffix: the whole text if there is no separator, otherwise the part after the last one |
| Py.SplitSnoc | juriscraper/opinions/united_states/state/minn.py:75 | a text that ends in a separator followed by a separator-free tail splits into the pieces before that separator, plus the tail |
| Py.SplitCons | juriscraper/opinions/united_states/state/minn.py:88 | a separator-free head followed by the separator is the first piece, and the rest of the text splits on its own |
| Py.SecondPiece | juriscraper/opinions/united_states/state/minn.py:88 | in `x sep y more`, with no separator in `x` or `y` and `more` empty or starting with the separator, there are at least two pieces and the second is `y` |
| Py.SplitChars | juriscraper/opinions/united_states/state/minn.py:88 | every character of every piece occurs in the text |
| Py.IndexOf | juriscraper/opinions/united_states/state/minn.py:75 | the position found holds the character, and no earlier position holds it |
| Py.LastIndexOf | juriscraper/opinions/united_states/state/minn.py:77 | the position found holds the character, and no later position holds it |
| Py.StripLeft | juriscraper/opinions/united_states/state/minn.py:83 | the left half of the `strip()` at minn.py:83 (`lstrip`): it never lengthens the text, and the result does not start with whitespace |
| Py.StripLeftSuffix | juriscraper/opinions/united_states/state/minn.py:83 | the left half of the `strip()` at minn.py:83 (`lstrip`) keeps a suffix and removes only whitespace |
| Py.StripRight | juriscraper/opinions/united_states/state/minn.py:83 | the right half of the `strip()` at minn.py:83 (`rstrip`) keeps a prefix, removes only whitespace, and the result does not end in whitespace |
| Py.Strip | juriscraper/opinions/united_states/state/minn.py:83 | `strip` leaves no whitespace at either end, and its result is empty exactly when the text is all whitespace |
| Py.StripSlice | juriscraper/opinions/united_states/state/minn.py:88 | the stripped text is a contiguous slice of the input, with only whitespace on either side |
| Py.StripOf | juriscraper/opinions/united_states/state/minn.py:83 | take whitespace, then a text with no whitespace at either end, then more whitespace: `strip` returns exactly that middle text |
| Py.StripChars | juriscraper/opinions/united_states/state/minn.py:88 | `strip` introduces no character that was not in the text |
| Py.IsDigit | juriscraper/opinions/united_states/state/minn.py:79 | `\d` on one character, restricted to the ASCII digits `0`-`9` |
| Py.IsSpace | juriscraper/opinions/united_states/state/minn.py:78-88 | the whitespace of `split()`, `strip()` and `\s` is the set of `str.isspace`: the ASCII controls 9-13 and 28-31, the space, and the Unicode spaces and separators |
| Py.HasDigit | juriscraper/opinions/united_states/state/minn.py:79 | `re.search(r"\d", s)` finds a match exactly when some character of `s` is an ASCII digit |
| Py.TakeWord | juriscraper/opinions/united_states/state/minn.py:78 | the first word is the longest whitespace-free prefix |
| Py.Words | juriscraper/opinions/united_states/state/minn.py:78 | every word of `split()` is non-empty and holds no whitespace; with `WordsOfSpace`, `WordsOfWord` and `WordsSplitAt` this fixes `split()` on every text |
| Py.WordsOfSpace | juriscraper/opinions/united_states/state/minn.py:78 | whitespace-only text has no words |
| Py.WordsOfWord | juriscraper/opinions/united_states/state/minn.py:78 | a non-empty run of non-whitespace is exactly one word |
| Py.WordsStrip | juriscraper/opinions/united_states/state/minn.py:78-83 | stripping a text keeps its word list unchanged, so the ten-word test reads the same before or after `strip` |
| Py.WordsSplitAt | juriscraper/opinions/united_states/state/minn.py:78 | a whitespace character separates words: the words of `x sp y` are the words of `x` followed by the words of `y` |
| Py.WordsNonSpace | juriscraper/opinions/united_states/state/minn.py:78 | the words of `split()`, concatenated, are exactly the non-whitespace characters of the text, in order |
| Py.Collapse | juriscraper/opinions/united_states/state/minn.py:88 | after `re.sub(r"\s+", " ", s)` all whitespace is plain spaces, never two in a row, and the result starts with whitespace exactly when the input does; with `CollapseEnds` and `WordsCollapse` this fixes the result |
| Py.CollapseNonSpace | juriscraper/opinions/united_states/state/minn.py:88 | collapsing keeps the non-whitespace characters, in the same order |
| Py.CollapseAround | juriscraper/opinions/united_states/state/minn.py:88 | a non-whitespace character splits the substitution: `x c y` collapses to `x` collapsed, `c`, then `y` collapsed |
| Py.CollapseEnds | juriscraper/opinions/united_states/state/minn.py:88 | the result is empty exactly when the text is, and ends in whitespace exactly when the text does |
| Py.WordsCollapse | juriscraper/opinions/united_states/state/minn.py:88 | collapsing keeps the word list: every whitespace run stays a separator, none disappears and none appears |
| Py.InNonSpace | juriscraper/opinions/united_states/state/minn.py:88 | a non-whitespace character survives in the non-whitespace projection exactly when it is in the text |
| Minn.StatusFor | juriscraper/opinions/united_states/state/minn.py:31-33 | the status is "Unpublished" exactly for the court query "ctapun", and "Published" exactly for every other query |
| Minn.BaseParams | juriscraper/opinions/united_states/state/minn.py:36-40 | the base parameters: the fixed source "mn-law-library-opinions", the query ` (url:/archive/<court query>) ` and the sort by date; `ChunkParams` and the constructor state what callers rely on |
| Minn.Site.constructor | juriscraper/opinions/united_states/state/minn.py:27-40 | a new site has the status of its court query, the three base parameters, request parameters equal to the base ones, and no cases |
| Minn.Decimal | juriscraper/opinions/united_states/state/minn.py:107-108 | `%-m`, `%-d` and `%Y` render as at least one decimal digit, and as exactly one digit when the number is below ten |
| Minn.ZeroPad | juriscraper/opinions/united_states/state/minn.py:109 | `%m` and `%d` render as digits padded with zeros to the given width |
| Minn.DecimalValue | juriscraper/opinions/united_states/state/minn.py:107-109 | reading the unpadded rendering back gives the number |
| Minn.ZeroPadValue | juriscraper/opinions/united_states/state/minn.py:109 | reading the zero-padded rendering back gives the number |
| Minn.DecimalLength | juriscraper/opinions/united_states/state/minn.py:109 | a number from 10^(d-1) to 10^d - 1 renders with exactly d digits |
| Minn.IsoDate | juriscraper/opinions/united_states/state/minn.py:109 | `strftime("%Y-%m-%d")`: the year, a dash, the two-digit month, a dash, the two-digit day; `IsoDateFields` proves the layout and read-back |
| Minn.SlashDate | juriscraper/opinions/united_states/state/minn.py:107-108 | `strftime("%-m/%-d/%Y")`: month, day and year unpadded, separated by slashes; `SlashDateFields` proves the read-back |
| Minn.IsoDateFields | juriscraper/opinions/united_states/state/minn.py:109 | for a four-digit year, `%Y-%m-%d` is ten characters with dashes at positions 4 and 7, and its three fields read back as the year, month and day |
| Minn.SlashDateFields | juriscraper/opinions/united_states/state/minn.py:107-108 | the `%-m/%-d/%Y` rendering splits at its slashes into exactly three fields, which read back as the month, the day and the year |
| Minn.ChunkParams | juriscraper/opinions/united_states/state/minn.py:104-111 | the chunk parameters have the base keys plus "start-date" and "end-date". Every base parameter other than those two and "query" keeps its value. The dates are in `%-m/%-d/%Y` form. The query is the base query followed by `date:[start..end]` in ISO form |
| Minn.Site.DownloadBackwards | juriscraper/opinions/united_states/state/minn.py:102-112 | the request parameters become the chunk parameters of the base parameters, and the base parameters are not changed |
| Minn.DocketAt | juriscraper/opinions/united_states/state/minn.py:64 | the tail `\. A\d{2}-\d+` of the name pattern matches at a position: a dot, a space, `A`, two digits, a dash and at least one digit |
| Minn.MatchAt | juriscraper/opinions/united_states/state/minn.py:64 | the whole name pattern matches from `p` with the group `(?P<name>.+)` spanning `s[p..k]`: the group is non-empty, holds no newline, and the docket tail follows it |
| Minn.LineEnd | juriscraper/opinions/united_states/state/minn.py:64 | `.` cannot match past the next newline |
| Minn.GreedyEnd | juriscraper/opinions/united_states/state/minn.py:64 | backtracking from the end of the line finds the largest group end at which `\. A\d{2}-\d+` follows, if there is one |
| Minn.Search | juriscraper/opinions/united_states/state/minn.py:64 | `re.search` returns a real match. It starts at the leftmost position where any match starts, its group is the longest from that start, and "no match" means no start position and no group end match |
| Minn.NoMatchBeyondLine | juriscraper/opinions/united_states/state/minn.py:64 | a match from a given start never has its group end after the next newline |
| Minn.CleanName | juriscraper/opinions/united_states/state/minn.py:63-66 | the cleaned name is never longer than the link text; when it differs, it is a non-empty single line |
| Minn.CleanNameSingleLine | juriscraper/opinions/united_states/state/minn.py:64-66 | on a one-line name the result is a prefix of the name. It differs from the name exactly when `. A<2 digits>-<digit>` occurs after the first character. It then stops right before the last such occurrence |
| Minn.CleanNameAt | juriscraper/opinions/united_states/state/minn.py:64-66 | when the last docket occurrence on a one-line name is at `k`, the cleaned name is the first `k` characters |
| Minn.SampleNameHasOneDocket | juriscraper/opinions/united_states/state/minn.py:64 | "Smith v. Jones. A12-3456 (decided)" has no docket occurrence after position 14 |
| Minn.CleanNameExample | juriscraper/opinions/united_states/state/minn.py:63-66 | "Smith v. Jones. A12-3456 (decided)" cleans up to "Smith v. Jones" |
| Minn.Disposition | juriscraper/opinions/united_states/state/minn.py:71-83 | the disposition of a summary: for a published opinion the stripped second-to-last "."-piece when there are more than two pieces and it has at most ten words and no digit, else empty; its properties are stated by `DispositionSpec`, `DispositionBetweenDots` and `DispositionOf` |
| Minn.DispositionSpec | juriscraper/opinions/united_states/state/minn.py:71-83 | only a published opinion gets a disposition. A non-empty one needs at least two dots in the summary, and has no digit, no dot, at most ten words and no surrounding whitespace |
| Minn.BetweenLastTwo | juriscraper/opinions/united_states/state/minn.py:75-77 | the text between the last two occurrences of a character never contains that character |
| Minn.BetweenOf | juriscraper/opinions/united_states/state/minn.py:75-77 | for a text of the form `front . x . last`, where neither `x` nor `last` holds a dot, the text between the last two dots is `x` |
| Minn.BetweenIsSecondToLast | juriscraper/opinions/united_states/state/minn.py:75-77 | with more than two pieces, `parts[-2]` is the text between the last two separators |
| Minn.NoBetweenForFewPieces | juriscraper/opinions/united_states/state/minn.py:76-77 | with two pieces or fewer there are no two separators to lie between |
| Minn.DispositionBetweenDots | juriscraper/opinions/united_states/state/minn.py:71-83 | restated without `split`, the disposition is as follows. For a published opinion it is the stripped text between the summary's last two dots, if that text has at most ten words and no digit. In every other case it is empty |
| Minn.PublishedDisposition | juriscraper/opinions/united_states/state/minn.py:74-83 | the published branch of the statement above, for summaries with more than two pieces |
| Minn.DispositionOf | juriscraper/opinions/united_states/state/minn.py:74-83 | a published summary of the form `front. x. last`, with no dot in `x` or `last`, has disposition `strip(x)` when `x` has at most ten words and no digit; if `x` is longer or holds a digit, the disposition is empty |
| Minn.SpacedLetters | juriscraper/opinions/united_states/state/minn.py:78-83 | a space followed by a non-empty run of ASCII letters is one word, has no digit, and strips to the run |
| Minn.DispositionOfWord | juriscraper/opinions/united_states/state/minn.py:74-83 | a published summary ending `. w. `, where `w` is a non-empty run of ASCII letters, has disposition `w` |
| Minn.DispositionReversed | juriscraper/opinions/united_states/state/minn.py:74-83 | a published summary such as "A. Reversed. " has the disposition "Reversed" |
| Minn.DateField | juriscraper/opinions/united_states/state/minn.py:88 | the second ":"-field of the whitespace-collapsed raw date text, stripped (empty when there is none); `DateTextOf` and `DateTextWords` state which text it is |
| Minn.DateText | juriscraper/opinions/united_states/state/minn.py:85-88 | the date text, raising IndexError where `split(":")[1]` has no second field; `DateTextSpec` and `DateTextOf` state when it raises and what it returns |
| Minn.DateTextSpec | juriscraper/opinions/united_states/state/minn.py:85-88 | the date text raises IndexError exactly when the raw text has no colon. Otherwise it has no colon, no surrounding whitespace, and no whitespace other than plain spaces |
| Minn.DateTextOf | juriscraper/opinions/united_states/state/minn.py:85-88 | for a raw date text `a:b` or `a:b:rest`, with no colon in `a` or `b`, the date text is `b` with its whitespace runs collapsed to single spaces and stripped |
| Minn.DateTextWords | juriscraper/opinions/united_states/state/minn.py:88 | for such a raw text, the date has exactly the words of `b`: the substitution and `strip()` lose no word and merge none |
| Minn.CollapseFields | juriscraper/opinions/united_states/state/minn.py:88 | collapsing `a:b rest` collapses `a` and `b` on their own, and what follows `b` is empty or starts with a colon |
| Minn.ColonSurvivesCollapse | juriscraper/opinions/united_states/state/minn.py:88 | collapsing whitespace neither adds nor removes a colon |
| Minn.SecondFieldPlain | juriscraper/opinions/united_states/state/minn.py:88 | the stripped second field of a collapsed text has only plain spaces as whitespace |
| Minn.LastSegment | juriscraper/opinions/united_states/state/minn.py:90 | `url.split("/")[-1]`, the last "/"-piece of the URL; `LastSegmentSpec` states which part of the URL it is |
| Minn.LastSegmentSpec | juriscraper/opinions/united_states/state/minn.py:90 | `url.split("/")[-1]` has no slash, and is the part of the URL after its last slash (the whole URL if there is none) |
| Minn.BeforeDash | juriscraper/opinions/united_states/state/minn.py:90 | `.split("-")[0]`, the first "-"-piece; `BeforeDashSpec` states which part of the text it is |
| Minn.BeforeDashSpec | juriscraper/opinions/united_states/state/minn.py:90 | `.split("-")[0]` has no dash, and is the part of the text before its first dash (the whole text if there is none) |
| Minn.Docket | juriscraper/opinions/united_states/state/minn.py:90 | `url.split("/")[-1].split("-")[0][2:]`, with Python's slice giving the empty text for a piece of two characters or fewer; `DocketSpec` states its contents |
| Minn.DocketSpec | juriscraper/opinions/united_states/state/minn.py:90 | the docket never fails and holds no "/" and no "-". It is the cut piece without its first two characters, and empty when that piece has two characters or fewer |
| Minn.Extractable | juriscraper/opinions/united_states/state/minn.py:62-90 | all four XPath results of a node are non-empty and its last date block has a colon; `ExtractableIff` proves this is exactly "no lookup raises" |
| Minn.ExtractableIff | juriscraper/opinions/united_states/state/minn.py:62-90 | a node is extractable exactly when no lookup raises: every XPath result indexed is non-empty, and the date text has a second field |
| Minn.BuildRecord | juriscraper/opinions/united_states/state/minn.py:91-100 | a record (a `CaseRecord`, the six-key dict appended at minn.py:91-100) keeps the snippet as its summary and the link target as its URL; its name is never longer than the link text |
| Minn.RecordFields | juriscraper/opinions/united_states/state/minn.py:85-100 | a record's date is the node's date text. An unpublished site gives no disposition. The docket has no "/" and no "-". The date has no colon and no whitespace other than plain spaces |
| Minn.ExtractRecord | juriscraper/opinions/united_states/state/minn.py:62-100 | extracting one node succeeds exactly when it is extractable; otherwise it raises IndexError |
| Minn.Site.ProcessHtml | juriscraper/opinions/united_states/state/minn.py:62-100 | the earlier cases are kept, and one record per node is appended in document order. Processing stops at the first node that is not extractable. The appended records are exactly the records of the nodes before that one. The site stays valid (its base parameters keep a query) |
| PaSuperCt.Description | juriscraper/opinions/united_states/state/pasuperct.py:36 | the nested lookup `opinion.get("PublicationType", {}).get("Description", "")` when it finds a description in a publication type object, and nothing otherwise; `GetStatus` is stated through it |
| PaSuperCt.GetStatus | juriscraper/opinions/united_states/state/pasuperct.py:30-41 | the status is "Unpublished" exactly for the description "Non-Precedential", and "Published" exactly for "Precedential". It is "Unknown" otherwise, including when the publication type is missing. A publication type that is present but not an object raises AttributeError |

## Left out

- The HTTP layer is not modelled: `_download`, the request headers, `verify=False` and `self.url` (minn.py lines 35, 41-52, 60). This is I/O. `Site.ProcessHtml` receives the result nodes of the downloaded page instead.
- XPath evaluation over the parsed HTML is not modelled. Each result node is given as the four lists its queries return (`ResultNode`).
- `urljoin("https://", url)` (minn.py line 95) is library URL resolution and is not modelled. The record's `url` is the link target as found.
- `make_backscrape_iterable` and `make_date_range_tuples` (minn.py lines 53, 114-136) are not modelled. They parse dates with `strptime`, read the clock with `datetime.now()` and call a library helper. The dates of one chunk are parameters of `Site.DownloadBackwards`.
- The `logger.info` call (minn.py line 103) and `court_id` are not modelled.
- Minn.Site.constructor: the source binds `params` and `base_params` to the same dictionary. The model keeps two equal values instead. Nothing in the modelled code mutates that dictionary in place, so the sharing has no visible effect here.
- Minn.Date: dates are triples of naturals with no calendar validity check. `Minn.IsoDateFields` covers four-digit years only. `%Y` for years below 1000 depends on the C library and is rendered unpadded.
- Py.HasDigit: `\d` is modelled as the ASCII digits `0`-`9`. Python's `str` patterns also match other Unicode decimal digits, so the model's digit test is narrower than the source's.
- Py.IsDigit: `\d` on one character is the ASCII digits `0`-`9` only, as for Py.HasDigit. Python's `str` patterns also match other Unicode decimal digits.
- Minn.DocketAt: the `\d` in the case-name pattern is ASCII-only for the same reason.
- Minn.CleanNameSingleLine: the prefix characterisation is proved for names without a newline only. For multi-line names, `Minn.CleanName` and `Minn.Search` still give the general contract: a leftmost, greedy, single-line match.
- `pasuperct.Site.__init__` (pasuperct.py lines 22-28) is not modelled. It adds `postTypes` to parameters built by the base class `pa.Site`, and `juriscraper/opinions/united_states/state/pa.py` is not part of this model.
- `ohioctapp_10.py` is not modelled. It holds no logic: it only sets `court_id` and `court_index = 10` on the Ohio base scraper, and that base scraper is not part of this model.
- JSON decoding is not modelled. `PaSuperCt.GetStatus` takes the decoded opinion object.
