/**
 The Minnesota opinion scraper (`minn.Site`): the site status chosen from the
 court query, the per-chunk query parameters of a backscrape, and the four
 text extractions that turn one search-result node into an opinion record
 (case name, disposition, filing-date text, docket), appended in document
 order to the site's `cases`.
 */
module Minn {
  import opened Py

  // ---------------------------------------------------------------------
  // Site configuration
  // ---------------------------------------------------------------------

  /** `Site.__init__`: the status of every opinion of the site. Only the
      unpublished Court of Appeals query ("ctapun") is unpublished. */
  function StatusFor(courtQuery: string): (status: string)
    ensures status == "Unpublished" <==> courtQuery == "ctapun"
    ensures status == "Published" <==> courtQuery != "ctapun"
  {
    if courtQuery == "ctapun" then "Unpublished" else "Published"
  }

  /** The search parameters set up by `Site.__init__`. */
  function BaseParams(courtQuery: string): map<string, string> {
    map[
      "v:sources" := "mn-law-library-opinions",
      "query" := " (url:/archive/" + courtQuery + ") ",
      "sortby" := "date"
    ]
  }

  // ---------------------------------------------------------------------
  // Dates and their strftime renderings
  // ---------------------------------------------------------------------

  /** A calendar date, as handed over by the backscrape iterable. */
  datatype Date = Date(year: nat, month: nat, day: nat)

  function DigitChar(d: nat): (c: char)
    requires d < 10
    ensures IsDigit(c)
  {
    ['0', '1', '2', '3', '4', '5', '6', '7', '8', '9'][d]
  }

  function DigitValue(c: char): nat
    requires IsDigit(c)
  {
    (c as int - '0' as int) as nat
  }

  /** The number written by a string of decimal digits. */
  function ValueOf(s: string): nat
    requires forall k | 0 <= k < |s| :: IsDigit(s[k])
  {
    if s == [] then 0 else 10 * ValueOf(s[..|s| - 1]) + DigitValue(s[|s| - 1])
  }

  /** `n` in decimal without leading zeros (`%-m`, `%-d`; also `%Y`, which
      the C library does not pad). */
  function Decimal(n: nat): (s: string)
    ensures 1 <= |s| && forall k | 0 <= k < |s| :: IsDigit(s[k])
    ensures n < 10 <==> |s| == 1
  {
    if n < 10 then [DigitChar(n)] else Decimal(n / 10) + [DigitChar(n % 10)]
  }

  /** `n` in decimal, padded with zeros to at least `width` characters
      (`%m`, `%d`). */
  function ZeroPad(n: nat, width: nat): (s: string)
    ensures forall k | 0 <= k < |s| :: IsDigit(s[k])
    ensures |s| == if |Decimal(n)| < width then width else |Decimal(n)|
    decreases width
  {
    if |Decimal(n)| < width then ['0'] + ZeroPad(n, width - 1) else Decimal(n)
  }

  /** `strftime("%Y-%m-%d")`. */
  function IsoDate(d: Date): string {
    Decimal(d.year) + "-" + ZeroPad(d.month, 2) + "-" + ZeroPad(d.day, 2)
  }

  /** `strftime("%-m/%-d/%Y")`. */
  function SlashDate(d: Date): string {
    Decimal(d.month) + "/" + Decimal(d.day) + "/" + Decimal(d.year)
  }

  /** Reading the decimal rendering back gives the number. */
  lemma {:induction false} DecimalValue(n: nat)
    ensures ValueOf(Decimal(n)) == n
  {
    if n >= 10 {
      var s := Decimal(n);
      DecimalValue(n / 10);
      assert s[..|s| - 1] == Decimal(n / 10);
    }
  }

  /** Leading zeros do not change the value. */
  lemma {:induction false} ZeroPadValue(n: nat, width: nat)
    ensures ValueOf(ZeroPad(n, width)) == n
    decreases width
  {
    if |Decimal(n)| < width {
      ZeroPadValue(n, width - 1);
      LeadingZero(ZeroPad(n, width - 1));
    } else {
      DecimalValue(n);
    }
  }

  lemma {:induction false} LeadingZero(s: string)
    requires forall k | 0 <= k < |s| :: IsDigit(s[k])
    ensures ValueOf(['0'] + s) == ValueOf(s)
    decreases |s|
  {
    if s != [] {
      var t := ['0'] + s;
      assert t[..|t| - 1] == ['0'] + s[..|s| - 1];
      LeadingZero(s[..|s| - 1]);
    }
  }

  /** For a four-digit year, the ISO rendering is ten characters, with
      dashes at positions 4 and 7, and its three fields read back as the
      year, the month and the day. */
  lemma IsoDateFields(d: Date)
    requires 1000 <= d.year <= 9999 && 1 <= d.month <= 12 && 1 <= d.day <= 31
    ensures var s := IsoDate(d);
      |s| == 10 && s[4] == '-' && s[7] == '-'
      && ValueOf(s[..4]) == d.year && ValueOf(s[5..7]) == d.month && ValueOf(s[8..]) == d.day
  {
    var y := Decimal(d.year);
    assert Pow10(3) == 1000 && Pow10(4) == 10000;
    DecimalLength(d.year, 4);
    var s := IsoDate(d);
    assert s[..4] == y;
    assert s[5..7] == ZeroPad(d.month, 2);
    assert s[8..] == ZeroPad(d.day, 2);
    DecimalValue(d.year);
    ZeroPadValue(d.month, 2);
    ZeroPadValue(d.day, 2);
  }

  /** The `%-m/%-d/%Y` rendering splits at its slashes into exactly three
      fields, which read back as the month, the day and the year. */
  lemma SlashDateFields(d: Date)
    ensures Split(SlashDate(d), '/') == [Decimal(d.month), Decimal(d.day), Decimal(d.year)]
    ensures var f := Split(SlashDate(d), '/');
      ValueOf(f[0]) == d.month && ValueOf(f[1]) == d.day && ValueOf(f[2]) == d.year
  {
    var m, dd, y := Decimal(d.month), Decimal(d.day), Decimal(d.year);
    assert forall k | 0 <= k < |m| :: m[k] != '/';
    assert forall k | 0 <= k < |dd| :: dd[k] != '/';
    assert forall k | 0 <= k < |y| :: y[k] != '/';
    var fields := [m, dd, y];
    assert Join(fields, '/') == SlashDate(d) by {
      assert fields[1..] == [dd, y];
      assert [dd, y][1..] == [y];
      assert Join([dd, y], '/') == dd + ['/'] + y;
      AppendAssoc(m + ['/'], dd + ['/'], y);
      AppendAssoc(m + ['/'], dd, ['/']);
    }
    SplitJoin(fields, '/');
    DecimalValue(d.month);
    DecimalValue(d.day);
    DecimalValue(d.year);
  }

  function Pow10(e: nat): (p: nat)
    ensures p >= 1
  {
    if e == 0 then 1 else 10 * Pow10(e - 1)
  }

  /** Numbers from 10^(digits-1) up to 10^digits - 1 have `digits` decimal
      digits. */
  lemma {:induction false} DecimalLength(n: nat, digits: nat)
    requires 1 <= digits && Pow10(digits - 1) <= n < Pow10(digits)
    ensures |Decimal(n)| == digits
    decreases digits
  {
    if digits > 1 {
      DecimalLength(n / 10, digits - 1);
    }
  }

  // ---------------------------------------------------------------------
  // Backscrape parameters
  // ---------------------------------------------------------------------

  /** `_download_backwards`: a copy of the base parameters with the chunk's
      dates in "start-date" and "end-date" and a date-range clause appended to
      the base "query"; every other base parameter is kept as it is. */
  function ChunkParams(base: map<string, string>, start: Date, end: Date): (params: map<string, string>)
    requires "query" in base
    ensures params.Keys == base.Keys + {"start-date", "end-date", "query"}
    ensures forall k | k in base && k != "start-date" && k != "end-date" && k != "query" :: params[k] == base[k]
    ensures params["start-date"] == SlashDate(start) && params["end-date"] == SlashDate(end)
    ensures params["query"] == base["query"] + "date:[" + IsoDate(start) + ".." + IsoDate(end) + "]"
  {
    base + map[
      "start-date" := SlashDate(start),
      "end-date" := SlashDate(end),
      "query" := base["query"] + "date:[" + IsoDate(start) + ".." + IsoDate(end) + "]"
    ]
  }

  // ---------------------------------------------------------------------
  // Case name: re.search(r"(?P<name>.+)\. A\d{2}-\d+", name)
  // ---------------------------------------------------------------------

  /** The tail `\. A\d{2}-\d+` of the pattern matches at position `k`. */
  predicate DocketAt(s: string, k: nat) {
    k + 7 <= |s| && s[k] == '.' && s[k + 1] == ' ' && s[k + 2] == 'A'
    && IsDigit(s[k + 3]) && IsDigit(s[k + 4]) && s[k + 5] == '-' && IsDigit(s[k + 6])
  }

  /** The whole pattern matches from `p`, with the group `(.+)` spanning
      `s[p..k]` (`.` matches anything but a newline). */
  predicate MatchAt(s: string, p: nat, k: nat) {
    p < k <= |s| && DocketAt(s, k) && '\n' !in s[p..k]
  }

  /** How far `.+` can reach from `p`: the next newline, or the end. */
  function LineEnd(s: string, p: nat): (e: nat)
    requires p <= |s|
    ensures p <= e <= |s| && '\n' !in s[p..e]
    ensures e == |s| || s[e] == '\n'
    decreases |s| - p
  {
    if p == |s| || s[p] == '\n' then p
    else
      var e := LineEnd(s, p + 1);
      assert s[p..e] == [s[p]] + s[p + 1..e];
      e
  }

  /** Greedy backtracking of `.+`: the largest group end `k` in `(p, e]` at
      which the rest of the pattern matches. */
  function GreedyEnd(s: string, p: nat, e: nat): (k: Option<nat>)
    requires p <= e <= |s|
    ensures k.Some? ==> p < k.value <= e && DocketAt(s, k.value)
    ensures forall j | p < j <= e && DocketAt(s, j) :: k.Some? && j <= k.value
    decreases e
  {
    if e <= p then None
    else if DocketAt(s, e) then Some(e)
    else GreedyEnd(s, p, e - 1)
  }

  /** `re.search`: the leftmost start at or after `p` from which the pattern
      matches, paired with the end of its (greedy) group. */
  function Search(s: string, p: nat): (m: Option<(nat, nat)>)
    requires p <= |s|
    ensures m.Some? ==> p <= m.value.0 && MatchAt(s, m.value.0, m.value.1)
    ensures m.Some? ==> forall k | m.value.1 < k :: !MatchAt(s, m.value.0, k)
    ensures m.Some? ==> forall q, k | p <= q < m.value.0 :: !MatchAt(s, q, k)
    ensures m.None? ==> forall q, k | p <= q :: !MatchAt(s, q, k)
    decreases |s| - p
  {
    if p == |s| then None
    else
      var e := LineEnd(s, p);
      NoMatchBeyondLine(s, p, e);
      match GreedyEnd(s, p, e)
      case Some(k) => Some((p, k))
      case None => Search(s, p + 1)
  }

  /** A group starting at `p` cannot run past the end of its line. */
  lemma NoMatchBeyondLine(s: string, p: nat, e: nat)
    requires p <= e <= |s| && (e == |s| || s[e] == '\n')
    ensures forall k | e < k :: !MatchAt(s, p, k)
  {
    forall k | e < k && k <= |s| ensures '\n' in s[p..k] {
      assert s[p..k][e - p] == '\n';
    }
  }

  /** The case-name cleanup of `_process_html`: the named group of the first
      match, or the name unchanged when nothing matches. The result is never
      longer than the name; a cleaned-up name is a single non-empty line. */
  function CleanName(name: string): (r: string)
    ensures |r| <= |name|
    ensures r != name ==> r != [] && '\n' !in r
  {
    match Search(name, 0)
    case Some((p, k)) => name[p..k]
    case None => name
  }

  /** On a one-line name the cleanup keeps a prefix: the whole name when the
      docket pattern occurs nowhere after its first character, otherwise the
      longest prefix that the pattern follows. */
  lemma CleanNameSingleLine(name: string)
    requires '\n' !in name
    ensures CleanName(name) <= name
    ensures CleanName(name) != name <==> exists k | 0 < k :: DocketAt(name, k)
    ensures CleanName(name) != name ==>
      DocketAt(name, |CleanName(name)|) && (forall k | |CleanName(name)| < k :: !DocketAt(name, k))
  {
    match Search(name, 0)
    case Some((p, k)) =>
      if p > 0 {
        assert MatchAt(name, 0, k);
      }
      forall j | k < j ensures !DocketAt(name, j) {
        assert !MatchAt(name, 0, j);
      }
    case None =>
      forall k | 0 < k ensures !DocketAt(name, k) {
        assert !MatchAt(name, 0, k);
      }
  }

  /** A case name followed by its Court of Appeals docket number. */
  const SampleName := "Smith v. Jones. A12-3456 (decided)"

  lemma SampleNameHasOneDocket()
    ensures forall k | 14 < k :: !DocketAt(SampleName, k)
  {
    assert '.' !in SampleName[15..] by {
      assert SampleName[15..] == " A12-3456 (decided)";
    }
    forall k | 14 < k ensures !DocketAt(SampleName, k) {
      if k < |SampleName| {
        assert SampleName[k] == SampleName[15..][k - 15];
      }
    }
  }

  /** The cleanup cuts the sample name right before its docket number. */
  lemma CleanNameExample()
    ensures CleanName(SampleName) == "Smith v. Jones"
  {
    SampleNameHasOneDocket();
    assert DocketAt(SampleName, 14);
    assert SampleName[..14] == "Smith v. Jones";
    CleanNameAt(SampleName, 14);
  }

  /** On a one-line name, the docket pattern's last occurrence `k` decides
      the cleaned-up name: it is the first `k` characters. */
  lemma CleanNameAt(name: string, k: nat)
    requires '\n' !in name && 0 < k && DocketAt(name, k)
    requires forall j | k < j :: !DocketAt(name, j)
    ensures CleanName(name) == name[..k]
  {
    CleanNameSingleLine(name);
    var r := CleanName(name);
    assert r != name;
    assert DocketAt(name, |r|);
  }

  // ---------------------------------------------------------------------
  // Disposition
  // ---------------------------------------------------------------------

  /** The disposition heuristic of `_process_html`: for a published opinion,
      the stripped second-to-last "."-piece of the summary, provided it has at
      most ten words and no digit; the empty string otherwise. */
  function Disposition(summary: string, status: string): string
  {
    if status != "Published" then []
    else
      var parts := Split(summary, '.');
      if |parts| > 2 && |Words(parts[|parts| - 2])| <= 10 && !HasDigit(parts[|parts| - 2]) then
        Strip(parts[|parts| - 2])
      else []
  }

  /** Only a published opinion gets a disposition. A non-empty disposition
      needs two dots in the summary, and has no digit, no dot, at most ten
      words and no surrounding whitespace. */
  lemma DispositionSpec(summary: string, status: string)
    ensures status != "Published" ==> Disposition(summary, status) == []
    ensures var r := Disposition(summary, status);
      r != [] ==> Count(summary, '.') >= 2 && !HasDigit(r) && '.' !in r && |Words(r)| <= 10
    ensures var r := Disposition(summary, status);
      r != [] ==> !IsSpace(r[0]) && !IsSpace(r[|r| - 1])
  {
    var parts := Split(summary, '.');
    SplitCount(summary, '.');
    if status == "Published" && |parts| > 2 {
      var candidate := parts[|parts| - 2];
      WordsStrip(candidate);
      StripChars(candidate);
      var r := Strip(candidate);
      assert forall k | 0 <= k < |r| :: r[k] in candidate;
    }
  }

  /** The text between the last two occurrences of `c` in `s`, if `c`
      occurs twice. */
  function BetweenLastTwo(s: string, c: char): (b: Option<string>)
    ensures b.Some? ==> c !in b.value
  {
    if c !in s then None
    else
      var j := LastIndexOf(s, c);
      if c !in s[..j] then None
      else
        var i := LastIndexOf(s[..j], c);
        assert s[..j][i + 1..] == s[i + 1..j];
        Some(s[i + 1..j])
  }

  /** The text between the last two separators of `front + c + x + c + last`,
      where neither `x` nor `last` holds one, is `x`. */
  lemma BetweenOf(front: string, c: char, x: string, last: string)
    requires c !in x && c !in last
    ensures BetweenLastTwo(front + [c] + x + [c] + last, c) == Some(x)
  {
    var mid := front + [c] + x;
    var s := mid + [c] + last;
    LastIndexBeforeTail(mid, c, last);
    assert s[..|mid|] == mid;
    LastIndexBeforeTail(front, c, x);
    assert mid[|front| + 1..] == x;
  }

  lemma PrefixSnoc<T>(xs: seq<T>, i: nat)
    requires i < |xs|
    ensures xs[..i + 1] == xs[..i] + [xs[i]]
  {
  }

  /** With three or more pieces, the text between the last two separators
      is the second-to-last piece. */
  lemma BetweenIsSecondToLast(s: string, c: char)
    requires |Split(s, c)| > 2
    ensures BetweenLastTwo(s, c) == Some(Split(s, c)[|Split(s, c)| - 2])
  {
    var parts := Split(s, c);
    var n := |parts|;
    var front, x, last := Join(parts[..n - 2], c), parts[n - 2], parts[n - 1];
    JoinSplit(s, c);
    assert Join(parts, c) == Join(parts[..n - 1], c) + [c] + last by {
      PrefixSnoc(parts, n - 1);
      assert parts[..n] == parts;
      JoinSnoc(parts[..n - 1], c, last);
    }
    assert Join(parts[..n - 1], c) == front + [c] + x by {
      PrefixSnoc(parts, n - 2);
      JoinSnoc(parts[..n - 2], c, x);
    }
    BetweenOf(front, c, x, last);
  }

  /** With two pieces or fewer, there are no two separators. */
  lemma NoBetweenForFewPieces(s: string, c: char)
    requires |Split(s, c)| <= 2
    ensures BetweenLastTwo(s, c) == None
  {
    SplitCount(s, c);
  }

  /** The disposition, restated without `split`: for a published opinion it
      is the stripped text between the summary's last two dots, when that
      text has at most ten words and no digit, and empty in every other case. */
  lemma DispositionBetweenDots(summary: string, status: string)
    ensures Disposition(summary, status) ==
      match BetweenLastTwo(summary, '.')
      case Some(b) =>
        if status == "Published" && |Words(b)| <= 10 && !HasDigit(b) then Strip(b) else []
      case None => []
  {
    if status != "Published" {
    } else if |Split(summary, '.')| > 2 {
      PublishedDisposition(summary);
    } else {
      NoBetweenForFewPieces(summary, '.');
    }
  }

  /** For a published opinion whose summary ends ". x. last" (no dot in `x`
      or `last`), the disposition is `x` stripped when `x` has at most ten
      words and no digit, and empty when `x` is longer or holds a digit. */
  lemma DispositionOf(front: string, x: string, last: string)
    requires '.' !in x && '.' !in last
    ensures Disposition(front + "." + x + "." + last, "Published") ==
      if |Words(x)| <= 10 && !HasDigit(x) then Strip(x) else []
  {
    BetweenOf(front, '.', x, last);
    DispositionBetweenDots(front + "." + x + "." + last, "Published");
  }

  /** An ASCII letter. */
  predicate IsAsciiLetter(c: char) {
    'A' <= c <= 'Z' || 'a' <= c <= 'z'
  }

  /** "Reversed" is a run of letters. */
  lemma ReversedLetters()
    ensures forall k | 0 <= k < |"Reversed"| :: IsAsciiLetter("Reversed"[k])
  {
    var w := "Reversed";
    assert w[0] == 'R' && w[1] == 'e' && w[2] == 'v' && w[3] == 'e';
    assert w[4] == 'r' && w[5] == 's' && w[6] == 'e' && w[7] == 'd';
  }

  /** Letters are neither whitespace nor digits. */
  lemma LettersPlain(w: string)
    requires forall k | 0 <= k < |w| :: IsAsciiLetter(w[k])
    ensures forall k | 0 <= k < |w| :: !IsSpace(w[k]) && !IsDigit(w[k])
  {
  }

  /** A run of letters after a space is one word, has no digit, and strips
      to the run itself. */
  lemma SpacedLetters(w: string)
    requires w != [] && forall k | 0 <= k < |w| :: IsAsciiLetter(w[k])
    ensures |Words(" " + w)| == 1 && !HasDigit(" " + w) && Strip(" " + w) == w
  {
    LettersPlain(w);
    WordsPrependSpace(" ", w);
    WordsOfWord(w);
    assert " " + w == " " + w + "";
    StripOf(" ", w, "");
    assert forall k | 1 <= k < |" " + w| :: (" " + w)[k] == w[k - 1];
  }

  /** A published summary ending ". w. " for a single word of letters `w`
      has the disposition `w`. */
  lemma DispositionOfWord(front: string, w: string)
    requires w != [] && forall k | 0 <= k < |w| :: IsAsciiLetter(w[k])
    ensures Disposition(front + "." + (" " + w) + "." + " ", "Published") == w
  {
    SpacedLetters(w);
    DispositionOf(front, " " + w, " ");
  }

  /** A published summary ending ". Reversed. " (such as "A. Reversed. ")
      has the disposition "Reversed". */
  lemma DispositionReversed(front: string)
    ensures Disposition(front + "." + (" " + "Reversed") + "." + " ", "Published") == "Reversed"
  {
    ReversedLetters();
    DispositionOfWord(front, "Reversed");
  }

  lemma PublishedDisposition(summary: string)
    requires |Split(summary, '.')| > 2
    ensures Disposition(summary, "Published") ==
      match BetweenLastTwo(summary, '.')
      case Some(b) => if |Words(b)| <= 10 && !HasDigit(b) then Strip(b) else []
      case None => []
  {
    BetweenIsSecondToLast(summary, '.');
  }

  // ---------------------------------------------------------------------
  // Filing date and docket
  // ---------------------------------------------------------------------

  /** The second ":"-field of the raw date text after whitespace runs are
      collapsed, stripped (empty when there is no second field). */
  function DateField(raw: string): string
  {
    var parts := Split(Collapse(raw), ':');
    if |parts| < 2 then [] else Strip(parts[1])
  }

  /** The date text of `_process_html`: `DateField`, except that indexing
      the second field raises IndexError when there is none. */
  function DateText(raw: string): Result<string>
  {
    if |Split(Collapse(raw), ':')| < 2 then Raise(IndexError) else Ok(DateField(raw))
  }

  /** The date text raises IndexError exactly when the raw text has no colon.
      The text returned has no colon, no surrounding whitespace, and no
      whitespace other than plain spaces. */
  lemma DateTextSpec(raw: string)
    ensures DateText(raw).Raise? <==> ':' !in raw
    ensures DateText(raw).Raise? ==> DateText(raw).error == IndexError
    ensures DateText(raw).Ok? ==> ':' !in DateText(raw).value && PlainSpaces(DateText(raw).value)
    ensures DateText(raw).Ok? ==>
      var d := DateText(raw).value; d == [] || (!IsSpace(d[0]) && !IsSpace(d[|d| - 1]))
  {
    var collapsed := Collapse(raw);
    var parts := Split(collapsed, ':');
    ColonSurvivesCollapse(raw);
    SplitCount(collapsed, ':');
    if |parts| >= 2 {
      SecondFieldPlain(collapsed);
      StripChars(parts[1]);
    }
  }

  /** The date text is the second ":"-field with its whitespace runs
      collapsed and stripped: for a raw text `a:b`, or `a:b:rest`, where `a`
      and `b` hold no colon, it is `b` collapsed and stripped. */
  lemma DateTextOf(a: string, b: string, rest: string)
    requires ':' !in a && ':' !in b && (rest == [] || rest[0] == ':')
    ensures DateText(a + ":" + b + rest) == Ok(Strip(Collapse(b)))
  {
    var more := CollapseFields(a, b, rest);
    ColonSurvivesCollapse(a);
    ColonSurvivesCollapse(b);
    SecondPiece(Collapse(a), ':', Collapse(b), more);
  }

  /** The date text has exactly the words of the second ":"-field of the raw
      text. */
  lemma DateTextWords(a: string, b: string, rest: string)
    requires ':' !in a && ':' !in b && (rest == [] || rest[0] == ':')
    ensures Words(DateField(a + ":" + b + rest)) == Words(b)
  {
    DateTextOf(a, b, rest);
    WordsStrip(Collapse(b));
    WordsCollapse(b);
  }

  /** Collapsing `a:b rest` collapses `a` and `b` on their own. */
  lemma CollapseFields(a: string, b: string, rest: string) returns (more: string)
    requires rest == [] || rest[0] == ':'
    ensures more == [] || more[0] == ':'
    ensures Collapse(a + ":" + b + rest) == Collapse(a) + [':'] + Collapse(b) + more
  {
    AppendAssoc(a + [':'], b, rest);
    CollapseAround(a, ':', b + rest);
    if rest == [] {
      assert b + rest == b;
      more := [];
    } else {
      AppendUncons(b, rest);
      CollapseAround(b, ':', rest[1..]);
      more := [':'] + Collapse(rest[1..]);
      AppendAssoc(Collapse(b), [':'], Collapse(rest[1..]));
      AppendAssoc(Collapse(a) + [':'], Collapse(b), more);
    }
  }

  /** Collapsing whitespace neither adds nor removes a colon. */
  lemma ColonSurvivesCollapse(raw: string)
    ensures ':' in Collapse(raw) <==> ':' in raw
  {
    CollapseNonSpace(raw);
    InNonSpace(raw, ':');
    InNonSpace(Collapse(raw), ':');
  }

  /** The stripped second field of a text with plain spaces only has plain
      spaces only. */
  lemma SecondFieldPlain(s: string)
    requires PlainSpaces(s) && |Split(s, ':')| >= 2
    ensures PlainSpaces(Strip(Split(s, ':')[1]))
  {
    var field := Split(s, ':')[1];
    SplitChars(s, ':');
    assert forall j | 0 <= j < |field| :: field[j] in s;
    PlainSpacesOfChars(field, s);
    StripChars(field);
    var r := Strip(field);
    assert forall j | 0 <= j < |r| :: r[j] in field;
    PlainSpacesOfChars(r, field);
  }

  /** The last "/"-piece of a URL. */
  function LastSegment(url: string): string
  {
    var parts := Split(url, '/');
    parts[|parts| - 1]
  }

  /** The last "/"-piece is the text after the last slash of the URL, or the
      whole URL when it has none. */
  lemma LastSegmentSpec(url: string)
    ensures '/' !in LastSegment(url)
    ensures var seg := LastSegment(url);
      |seg| <= |url| && seg == url[|url| - |seg|..]
      && (seg == url || url[|url| - |seg| - 1] == '/')
  {
    SplitLast(url, '/');
  }

  /** The first "-"-piece of a text. */
  function BeforeDash(s: string): string
  {
    Split(s, '-')[0]
  }

  /** The first "-"-piece is the text before the first dash, or the whole
      text when it has none. */
  lemma BeforeDashSpec(s: string)
    ensures '-' !in BeforeDash(s)
    ensures BeforeDash(s) <= s
    ensures BeforeDash(s) == s || s[|BeforeDash(s)|] == '-'
  {
    SplitHead(s, '-');
  }

  /** The docket of `_process_html`: the last "/"-piece of the URL, cut at its
      first "-", without its first two characters. */
  function Docket(url: string): string
  {
    var head := BeforeDash(LastSegment(url));
    if |head| <= 2 then [] else head[2..]
  }

  /** The docket never fails, holds no "/" and no "-", and is the cut piece
      less its first two characters (empty when that piece has two
      characters or fewer). */
  lemma DocketSpec(url: string)
    ensures '/' !in Docket(url) && '-' !in Docket(url)
    ensures var head := BeforeDash(LastSegment(url)); var r := Docket(url);
      |r| == (if |head| <= 2 then 0 else |head| - 2) && r == head[|head| - |r|..]
  {
    var seg := LastSegment(url);
    var head := BeforeDash(seg);
    LastSegmentSpec(url);
    BeforeDashSpec(seg);
    if |head| > 2 {
      assert Docket(url) == seg[2..|head|];
    }
  }

  // ---------------------------------------------------------------------
  // Records
  // ---------------------------------------------------------------------

  /** One `div.searchresult` node, as the lists its XPath queries return: the
      link texts, the snippet texts, the text content of each date block and
      the link targets. */
  datatype ResultNode = ResultNode(
    linkTexts: seq<string>,
    snippetTexts: seq<string>,
    dateTexts: seq<string>,
    hrefs: seq<string>)

  /** The dictionary `_process_html` appends to `cases`. */
  datatype CaseRecord = CaseRecord(
    date: string,
    name: string,
    url: string,
    disposition: string,
    summary: string,
    docket: string)

  /** All four XPath queries of `_process_html` found something on this
      node, and the last date block has a colon. */
  predicate Extractable(node: ResultNode) {
    node.linkTexts != [] && node.snippetTexts != [] && node.dateTexts != []
    && ':' in node.dateTexts[|node.dateTexts| - 1] && node.hrefs != []
  }

  /** A node is extractable exactly when none of the lookups of
      `_process_html` raises: no indexing of an empty query result, and a
      date text that has a second field. */
  lemma ExtractableIff(node: ResultNode)
    ensures Extractable(node) <==>
      node.linkTexts != [] && node.snippetTexts != [] && node.dateTexts != []
      && DateText(node.dateTexts[|node.dateTexts| - 1]).Ok? && node.hrefs != []
  {
    if node.dateTexts != [] {
      DateTextSpec(node.dateTexts[|node.dateTexts| - 1]);
    }
  }

  /** The record of a node whose lookups all succeed. The summary is the
      snippet unmodified and the URL the link target; an unpublished site
      never gets a disposition. */
  function BuildRecord(node: ResultNode, status: string): (rec: CaseRecord)
    requires Extractable(node)
    ensures rec.summary == node.snippetTexts[0] && rec.url == node.hrefs[0]
    ensures |rec.name| <= |node.linkTexts[0]|
  {
    var url := node.hrefs[0];
    CaseRecord(
      date := DateField(node.dateTexts[|node.dateTexts| - 1]),
      name := CleanName(node.linkTexts[0]),
      url := url,
      disposition := Disposition(node.snippetTexts[0], status),
      summary := node.snippetTexts[0],
      docket := Docket(url))
  }

  /** The fields of a record are clean: an unpublished site never gets a
      disposition, the docket has no "/" or "-", the date no colon and no
      whitespace but plain spaces. */
  lemma RecordFields(node: ResultNode, status: string)
    requires Extractable(node)
    ensures var rec := BuildRecord(node, status);
      DateText(node.dateTexts[|node.dateTexts| - 1]) == Ok(rec.date)
      && (status != "Published" ==> rec.disposition == [])
      && '/' !in rec.docket && '-' !in rec.docket
      && ':' !in rec.date && PlainSpaces(rec.date)
  {
    DispositionSpec(node.snippetTexts[0], status);
    DocketSpec(node.hrefs[0]);
    DateTextSpec(node.dateTexts[|node.dateTexts| - 1]);
  }

  /** The record of one node, or the IndexError that the first failing
      lookup raises (all of them raise IndexError, so their order does not
      show). */
  function ExtractRecord(node: ResultNode, status: string): (r: Result<CaseRecord>)
    ensures r.Ok? <==> Extractable(node)
    ensures r.Raise? ==> r.error == IndexError
  {
    if Extractable(node) then Ok(BuildRecord(node, status)) else Raise(IndexError)
  }

  // ---------------------------------------------------------------------
  // The site object
  // ---------------------------------------------------------------------

  class Site {
    const courtQuery: string
    var status: string
    var baseParams: map<string, string>
    var params: map<string, string>
    var cases: seq<CaseRecord>

    ghost predicate Valid()
      reads this
    {
      "query" in baseParams
    }

    /** `Site.__init__` for the court selected by `courtQuery`. */
    constructor (courtQuery: string)
      ensures Valid()
      ensures this.courtQuery == courtQuery
      ensures status == StatusFor(courtQuery)
      ensures baseParams == BaseParams(courtQuery) && params == baseParams
      ensures cases == []
    {
      this.courtQuery := courtQuery;
      status := StatusFor(courtQuery);
      baseParams := BaseParams(courtQuery);
      params := BaseParams(courtQuery);
      cases := [];
    }

    /** `_process_html` on the nodes of a downloaded page: one record per
        node, in document order, appended to `cases`. The first node whose
        extraction raises stops the loop; the records appended before it stay.
        Returns how many nodes were turned into records. */
    method ProcessHtml(nodes: seq<ResultNode>) returns (done: nat)
      requires Valid()
      modifies this`cases
      ensures Valid()
      ensures done <= |nodes|
      ensures done < |nodes| ==> !Extractable(nodes[done])
      ensures |cases| == |old(cases)| + done && cases[..|old(cases)|] == old(cases)
      ensures forall i | 0 <= i < done ::
        Extractable(nodes[i]) && cases[|old(cases)| + i] == BuildRecord(nodes[i], status)
    {
      ghost var before := cases;
      done := 0;
      while done < |nodes|
        invariant done <= |nodes|
        invariant |cases| == |before| + done && cases[..|before|] == before
        invariant forall i | 0 <= i < done ::
          Extractable(nodes[i]) && cases[|before| + i] == BuildRecord(nodes[i], status)
      {
        var record := ExtractRecord(nodes[done], status);
        if record.Raise? {
          return;
        }
        cases := cases + [record.value];
        done := done + 1;
      }
    }

    /** `_download_backwards` for the chunk `start`..`end`: the parameters
        of the next request become `ChunkParams` of the base parameters, which
        stay as they were. */
    method DownloadBackwards(start: Date, end: Date)
      requires Valid()
      modifies this`params
      ensures Valid()
      ensures params == ChunkParams(baseParams, start, end)
      ensures baseParams == old(baseParams)
    {
      params := ChunkParams(baseParams, start, end);
    }
  }
}
