/**
 The handful of Python text built-ins the scrapers rely on, as functions on
 `string` (a sequence of Unicode scalar values, close to Python's `str`, which
 may also hold lone surrogates): `str.split(sep)`, `str.strip()` (defined
 through `lstrip` and `rstrip`, which the scrapers do not call themselves), the
 argument-less `str.split()`, `re.sub(r"\s+", " ", s)` and
 `re.search(r"\d", s)`; plus the Python exceptions that the modelled code can
 raise. `sep.join(parts)` is here only to state that `str.split(sep)` loses
 nothing; the scrapers do not call it.
 */
module Py {

  /** The exceptions that the modelled code lets escape. */
  datatype PyError = IndexError | AttributeError

  datatype Option<T> = None | Some(value: T)

  /** A value, or the exception raised while computing it. */
  datatype Result<T> = Ok(value: T) | Raise(error: PyError)

  /** Python's `str.isspace()` for one character; the same set is used by
      `\s` in a `str` pattern and by the argument-less `split()` and `strip()`. */
  predicate IsSpace(c: char) {
    var n := c as int;
    (9 <= n <= 13) || (28 <= n <= 32) || n == 0x85 || n == 0xA0 || n == 0x1680
    || (0x2000 <= n <= 0x200A) || n == 0x2028 || n == 0x2029 || n == 0x202F
    || n == 0x205F || n == 0x3000
  }

  /** `\d`, restricted to the ASCII digits. */
  predicate IsDigit(c: char) {
    '0' <= c <= '9'
  }

  /** `re.search(r"\d", s)` finds a match. */
  predicate HasDigit(s: string) {
    exists k | 0 <= k < |s| :: IsDigit(s[k])
  }

  predicate AllSpace(s: string) {
    forall k | 0 <= k < |s| :: IsSpace(s[k])
  }

  /** `s.count(c)` for a one-character `c`. */
  function Count(s: string, c: char): nat {
    multiset(s)[c]
  }

  /** The first position of `c` in `s` (`s.index(c)`). */
  function IndexOf(s: string, c: char): (i: nat)
    requires c in s
    ensures i < |s| && s[i] == c && c !in s[..i]
  {
    if s[0] == c then 0
    else
      assert s == [s[0]] + s[1..];
      var j := IndexOf(s[1..], c);
      assert s[..j + 1] == [s[0]] + s[1..][..j];
      j + 1
  }

  /** The last position of `c` in `s` (`s.rindex(c)`). */
  function LastIndexOf(s: string, c: char): (i: nat)
    requires c in s
    ensures i < |s| && s[i] == c && c !in s[i + 1..]
  {
    if s[|s| - 1] == c then |s| - 1
    else
      assert s == s[..|s| - 1] + [s[|s| - 1]];
      var j := LastIndexOf(s[..|s| - 1], c);
      assert s[j + 1..] == s[..|s| - 1][j + 1..] + [s[|s| - 1]];
      j
  }

  /** The position of the separator right before a separator-free tail. */
  lemma LastIndexBeforeTail(head: string, sep: char, tail: string)
    requires sep !in tail
    ensures sep in head + [sep] + tail
    ensures LastIndexOf(head + [sep] + tail, sep) == |head|
  {
    var s := head + [sep] + tail;
    assert s[|head|] == sep;
    var i := LastIndexOf(s, sep);
    assert s[|head| + 1..] == tail;
  }

  /** `s.split(sep)` for a one-character separator: the pieces between the
      occurrences of `sep`, empty pieces included. */
  function Split(s: string, sep: char): (parts: seq<string>)
    ensures |parts| >= 1
    ensures forall k | 0 <= k < |parts| :: sep !in parts[k]
    decreases |s|
  {
    if sep in s then
      var i := IndexOf(s, sep);
      [s[..i]] + Split(s[i + 1..], sep)
    else
      [s]
  }

  /** `sep.join(parts)`. */
  function Join(parts: seq<string>, sep: char): string
    requires |parts| >= 1
  {
    if |parts| == 1 then parts[0] else parts[0] + [sep] + Join(parts[1..], sep)
  }

  /** The first piece is the text before the first separator (all of `s`
      when there is none). */
  lemma SplitHead(s: string, sep: char)
    ensures Split(s, sep)[0] <= s
    ensures |Split(s, sep)| == 1 ==> Split(s, sep)[0] == s
    ensures |Split(s, sep)| > 1 ==> |Split(s, sep)[0]| < |s| && s[|Split(s, sep)[0]|] == sep
  {
  }

  /** The last piece is the text after the last separator (all of `s` when
      there is none). */
  lemma SplitLast(s: string, sep: char)
    ensures var parts := Split(s, sep); var last := parts[|parts| - 1];
      |last| <= |s| && last == s[|s| - |last|..]
      && (|parts| > 1 ==> |last| < |s| && s[|s| - |last| - 1] == sep)
  {
    var parts := Split(s, sep);
    var n := |parts|;
    JoinSplit(s, sep);
    if n > 1 {
      assert parts == parts[..n - 1] + [parts[n - 1]];
      JoinSnoc(parts[..n - 1], sep, parts[n - 1]);
    }
  }

  /** Every character of every piece occurs in the text. */
  lemma {:induction false} SplitChars(s: string, sep: char)
    ensures forall k, j | 0 <= k < |Split(s, sep)| && 0 <= j < |Split(s, sep)[k]| :: Split(s, sep)[k][j] in s
    decreases |s|
  {
    if sep in s {
      var i := IndexOf(s, sep);
      SplitChars(s[i + 1..], sep);
      var parts := Split(s, sep);
      forall k, j | 0 <= k < |parts| && 0 <= j < |parts[k]| ensures parts[k][j] in s {
        if k == 0 {
          assert parts[0][j] == s[j];
        } else {
          assert parts[k] == Split(s[i + 1..], sep)[k - 1];
          var c := parts[k][j];
          var m :| 0 <= m < |s[i + 1..]| && s[i + 1..][m] == c;
          assert s[i + 1 + m] == c;
        }
      }
    }
  }

  /** Whitespace in `s`, if any, is plain spaces. */
  predicate PlainSpaces(s: string) {
    forall k | 0 <= k < |s| :: IsSpace(s[k]) ==> s[k] == ' '
  }

  /** A text made of characters of a text with plain spaces only has plain
      spaces only. */
  lemma PlainSpacesOfChars(t: string, s: string)
    requires PlainSpaces(s)
    requires forall k | 0 <= k < |t| :: t[k] in s
    ensures PlainSpaces(t)
  {
    forall k | 0 <= k < |t| && IsSpace(t[k]) ensures t[k] == ' ' {
      var m :| 0 <= m < |s| && s[m] == t[k];
    }
  }

  /** Joining the pieces back restores the text. */
  lemma {:induction false} JoinSplit(s: string, sep: char)
    ensures Join(Split(s, sep), sep) == s
    decreases |s|
  {
    if sep in s {
      var i := IndexOf(s, sep);
      JoinCons(s[..i], Split(s[i + 1..], sep), sep);
      JoinSplit(s[i + 1..], sep);
      assert s == s[..i] + [sep] + s[i + 1..];
    }
  }

  /** Joining a first piece and more pieces puts the separator after it. */
  lemma JoinCons(head: string, rest: seq<string>, sep: char)
    requires |rest| >= 1
    ensures Join([head] + rest, sep) == head + [sep] + Join(rest, sep)
  {
    assert ([head] + rest)[1..] == rest;
  }

  /** The position of the separator right after a separator-free head. */
  lemma IndexAfterHead(head: string, sep: char, tail: string)
    requires sep !in head
    ensures sep in head + [sep] + tail
    ensures IndexOf(head + [sep] + tail, sep) == |head|
  {
    var s := head + [sep] + tail;
    assert s[|head|] == sep;
    var i := IndexOf(s, sep);
    assert s[..|head|] == head;
  }

  /** Splitting undoes joining separator-free pieces: `Split` and `Join` are
      inverse to each other. */
  lemma {:induction false} SplitJoin(parts: seq<string>, sep: char)
    requires |parts| >= 1
    requires forall k | 0 <= k < |parts| :: sep !in parts[k]
    ensures Split(Join(parts, sep), sep) == parts
  {
    if |parts| > 1 {
      var tail := Join(parts[1..], sep);
      IndexAfterHead(parts[0], sep, tail);
      var s := parts[0] + [sep] + tail;
      assert s[|parts[0]| + 1..] == tail;
      assert s[..|parts[0]|] == parts[0];
      SplitJoin(parts[1..], sep);
      assert parts == [parts[0]] + parts[1..];
    }
  }

  /** A separator-free head followed by the separator is the first piece. */
  lemma SplitCons(head: string, sep: char, tail: string)
    requires sep !in head
    ensures Split(head + [sep] + tail, sep) == [head] + Split(tail, sep)
  {
    var s := head + [sep] + tail;
    IndexAfterHead(head, sep, tail);
    assert s[..|head|] == head;
    assert s[|head| + 1..] == tail;
  }

  /** In `x sep y more`, with no separator in `x` or `y` and `more` empty or
      starting with the separator, the second piece is `y`. */
  lemma SecondPiece(x: string, sep: char, y: string, more: string)
    requires sep !in x && sep !in y && (more == [] || more[0] == sep)
    ensures |Split(x + [sep] + y + more, sep)| >= 2
    ensures Split(x + [sep] + y + more, sep)[1] == y
  {
    AppendAssoc(x + [sep], y, more);
    SplitCons(x, sep, y + more);
    if more == [] {
      assert y + more == y;
    } else {
      AppendUncons(y, more);
      SplitCons(y, sep, more[1..]);
    }
  }

  /** There is one more piece than there are separators. */
  lemma {:induction false} SplitCount(s: string, sep: char)
    ensures |Split(s, sep)| == Count(s, sep) + 1
    decreases |s|
  {
    if sep in s {
      var i := IndexOf(s, sep);
      SplitCount(s[i + 1..], sep);
      assert s == s[..i] + [sep] + s[i + 1..];
      assert multiset(s) == multiset(s[..i]) + multiset{sep} + multiset(s[i + 1..]);
    } else {
      assert multiset(s)[sep] == 0;
    }
  }

  /** Text ending in `sep` and a separator-free tail splits into the pieces of
      the text before that separator, then the tail. */
  lemma {:induction false} SplitSnoc(front: string, sep: char, tail: string)
    requires sep !in tail
    ensures Split(front + [sep] + tail, sep) == Split(front, sep) + [tail]
    decreases |front|
  {
    if sep in front {
      var i := IndexOf(front, sep);
      var head, rest := front[..i], front[i + 1..];
      assert front == head + [sep] + rest;
      SplitCons(head, sep, rest);
      AppendAssoc(head + [sep] + rest, [sep], tail);
      AppendAssoc(head + [sep], rest, [sep] + tail);
      AppendAssoc(rest, [sep], tail);
      SplitCons(head, sep, rest + [sep] + tail);
      SplitSnoc(rest, sep, tail);
      ConsAppend(head, Split(rest, sep), [tail]);
    } else {
      SplitCons(front, sep, tail);
    }
  }

  /** The text of a join is the join of all pieces but the last, the
      separator, and the last piece. */
  lemma {:induction false} JoinSnoc(parts: seq<string>, sep: char, last: string)
    requires |parts| >= 1
    ensures Join(parts + [last], sep) == Join(parts, sep) + [sep] + last
  {
    if |parts| > 1 {
      assert (parts + [last])[1..] == parts[1..] + [last];
      JoinSnoc(parts[1..], sep, last);
    }
  }

  /** `s.lstrip()`. */
  function StripLeft(s: string): (r: string)
    ensures |r| <= |s|
    ensures r == [] || !IsSpace(r[0])
  {
    if s != [] && IsSpace(s[0]) then StripLeft(s[1..]) else s
  }

  /** What `lstrip` removes is a run of whitespace at the front. */
  lemma {:induction false} StripLeftSuffix(s: string)
    ensures StripLeft(s) == s[|s| - |StripLeft(s)|..]
    ensures AllSpace(s[..|s| - |StripLeft(s)|])
  {
    if s != [] && IsSpace(s[0]) {
      StripLeftSuffix(s[1..]);
    }
  }

  /** `s.rstrip()`. */
  function StripRight(s: string): (r: string)
    ensures r <= s
    ensures AllSpace(s[|r|..])
    ensures r == [] || !IsSpace(r[|r| - 1])
  {
    if s != [] && IsSpace(s[|s| - 1]) then StripRight(s[..|s| - 1]) else s
  }

  /** `s.strip()`: `s` with its leading and trailing whitespace removed. */
  function Strip(s: string): (r: string)
    ensures r == [] || (!IsSpace(r[0]) && !IsSpace(r[|r| - 1]))
    ensures r == [] <==> AllSpace(s)
  {
    StripEmpty(s);
    StripRight(StripLeft(s))
  }

  lemma StripEmpty(s: string)
    ensures StripRight(StripLeft(s)) == [] <==> AllSpace(s)
  {
    var l := StripLeft(s);
    StripLeftSuffix(s);
    if StripRight(l) == [] {
      assert AllSpace(l[0..]);
      assert s == s[..|s| - |l|] + l;
    }
  }

  /** `Strip(s)` is the slice of `s` left between its leading and its
      trailing whitespace. */
  lemma StripSlice(s: string) returns (i: nat)
    ensures i + |Strip(s)| <= |s| && s[i..i + |Strip(s)|] == Strip(s)
    ensures AllSpace(s[..i]) && AllSpace(s[i + |Strip(s)|..])
  {
    var l := StripLeft(s);
    var r := StripRight(l);
    StripLeftSuffix(s);
    i := |s| - |l|;
    assert s[i..] == l;
    assert l[..|r|] == r;
    assert s[i..i + |r|] == l[..|r|];
    assert s[i + |r|..] == l[|r|..];
  }

  /** Whitespace in front of a text that starts with non-whitespace is
      exactly what `lstrip` removes. */
  lemma {:induction false} StripLeftOf(lead: string, w: string)
    requires AllSpace(lead) && (w == [] || !IsSpace(w[0]))
    ensures StripLeft(lead + w) == w
    decreases |lead|
  {
    if lead == [] {
      assert lead + w == w;
    } else {
      assert (lead + w)[1..] == lead[1..] + w;
      StripLeftOf(lead[1..], w);
    }
  }

  /** Whitespace after a text that ends with non-whitespace is exactly what
      `rstrip` removes. */
  lemma {:induction false} StripRightOf(w: string, trail: string)
    requires AllSpace(trail) && (w == [] || !IsSpace(w[|w| - 1]))
    ensures StripRight(w + trail) == w
    decreases |trail|
  {
    if trail == [] {
      assert w + trail == w;
    } else {
      var n := |trail|;
      assert (w + trail)[..|w| + n - 1] == w + trail[..n - 1];
      StripRightOf(w, trail[..n - 1]);
    }
  }

  /** `strip` removes exactly the surrounding whitespace: a text with no
      whitespace at either end, put between two runs of whitespace, is what
      stripping gives back. */
  lemma StripOf(lead: string, w: string, trail: string)
    requires AllSpace(lead) && AllSpace(trail)
    requires w == [] || (!IsSpace(w[0]) && !IsSpace(w[|w| - 1]))
    ensures Strip(lead + w + trail) == w
  {
    if w == [] {
      assert lead + w + trail == lead + trail;
      assert AllSpace(lead + trail) by {
        forall k | 0 <= k < |lead + trail| ensures IsSpace((lead + trail)[k]) {
          if k >= |lead| { assert (lead + trail)[k] == trail[k - |lead|]; }
        }
      }
    } else {
      assert lead + w + trail == lead + (w + trail);
      StripLeftOf(lead, w + trail);
      StripRightOf(w, trail);
    }
  }

  /** Every character of `Strip(s)` occurs in `s`. */
  lemma StripChars(s: string)
    ensures forall c | c in Strip(s) :: c in s
  {
    var r := Strip(s);
    var i := StripSlice(s);
    forall c | c in r ensures c in s {
      var k :| 0 <= k < |r| && r[k] == c;
      assert s[i + k] == c;
    }
  }

  /** The longest whitespace-free prefix. */
  function TakeWord(s: string): (w: string)
    ensures w <= s
    ensures forall k | 0 <= k < |w| :: !IsSpace(w[k])
    ensures |w| == |s| || IsSpace(s[|w|])
    ensures s != [] && !IsSpace(s[0]) ==> |w| >= 1
  {
    if s == [] || IsSpace(s[0]) then [] else [s[0]] + TakeWord(s[1..])
  }

  /** The argument-less `s.split()`: the maximal runs of non-whitespace. */
  function Words(s: string): (ws: seq<string>)
    ensures forall k | 0 <= k < |ws| :: ws[k] != [] && forall j | 0 <= j < |ws[k]| :: !IsSpace(ws[k][j])
    decreases |s|
  {
    if s == [] then []
    else if IsSpace(s[0]) then Words(s[1..])
    else
      var w := TakeWord(s);
      [w] + Words(s[|w|..])
  }

  /** A non-empty run of non-whitespace is one word. */
  lemma {:induction false} WordsOfWord(w: string)
    requires w != [] && forall k | 0 <= k < |w| :: !IsSpace(w[k])
    ensures Words(w) == [w]
  {
    TakeWordAll(w);
    assert w[|w|..] == [];
  }

  lemma {:induction false} TakeWordAll(w: string)
    requires forall k | 0 <= k < |w| :: !IsSpace(w[k])
    ensures TakeWord(w) == w
    decreases |w|
  {
    if w != [] {
      TakeWordAll(w[1..]);
    }
  }

  /** Whitespace-only text has no words. */
  lemma {:induction false} WordsOfSpace(s: string)
    requires AllSpace(s)
    ensures Words(s) == []
    decreases |s|
  {
    if s != [] {
      WordsOfSpace(s[1..]);
    }
  }

  /** A word ends where whitespace (or the text) begins. */
  lemma {:induction false} TakeWordAppend(s: string, t: string)
    requires t == [] || IsSpace(t[0])
    ensures TakeWord(s + t) == TakeWord(s)
    decreases |s|
  {
    if s != [] && !IsSpace(s[0]) {
      assert (s + t)[1..] == s[1..] + t;
      TakeWordAppend(s[1..], t);
    } else if s == [] {
      assert s + t == t;
    }
  }

  /** Trailing whitespace adds no word. */
  lemma {:induction false} WordsAppendSpace(s: string, t: string)
    requires AllSpace(t)
    ensures Words(s + t) == Words(s)
    decreases |s|
  {
    if s == [] {
      assert s + t == t;
      WordsOfSpace(t);
    } else if IsSpace(s[0]) {
      assert (s + t)[1..] == s[1..] + t;
      WordsAppendSpace(s[1..], t);
    } else {
      TakeWordAppend(s, t);
      var w := TakeWord(s);
      assert (s + t)[|w|..] == s[|w|..] + t;
      WordsAppendSpace(s[|w|..], t);
    }
  }

  /** Leading whitespace adds no word. */
  lemma {:induction false} WordsPrependSpace(t: string, s: string)
    requires AllSpace(t)
    ensures Words(t + s) == Words(s)
    decreases |t|
  {
    if t != [] {
      assert (t + s)[1..] == t[1..] + s;
      WordsPrependSpace(t[1..], s);
    } else {
      assert t + s == s;
    }
  }

  /** Stripping keeps exactly the words of the text. */
  lemma WordsStrip(s: string)
    ensures Words(Strip(s)) == Words(s)
  {
    var r := Strip(s);
    var i := StripSlice(s);
    assert s == s[..i] + (r + s[i + |r|..]);
    WordsPrependSpace(s[..i], r + s[i + |r|..]);
    WordsAppendSpace(r, s[i + |r|..]);
  }

  /** The characters of `s` that are not whitespace, in order. */
  function NonSpace(s: string): (r: string)
    ensures |r| <= |s|
  {
    if s == [] then []
    else if IsSpace(s[0]) then NonSpace(s[1..])
    else [s[0]] + NonSpace(s[1..])
  }

  /** A non-whitespace character occurs in a text exactly when it occurs in
      the text's non-whitespace characters. */
  lemma {:induction false} InNonSpace(s: string, c: char)
    requires !IsSpace(c)
    ensures c in NonSpace(s) <==> c in s
  {
    if s != [] {
      InNonSpace(s[1..], c);
      assert s == [s[0]] + s[1..];
    }
  }

  /** `re.sub(r"\s+", " ", s)`: every maximal run of whitespace becomes one
      space. The result holds no whitespace but plain spaces, never two of them
      in a row (and, by `CollapseNonSpace`, the same non-whitespace characters
      in the same order). */
  function Collapse(s: string): (r: string)
    ensures PlainSpaces(r)
    ensures forall i, j | 0 <= i && j == i + 1 < |r| :: !(IsSpace(r[i]) && IsSpace(r[j]))
    ensures (r != [] && IsSpace(r[0])) <==> (s != [] && IsSpace(s[0]))
    decreases |s|
  {
    if s == [] then []
    else if IsSpace(s[0]) then
      [' '] + Collapse(StripLeft(s[1..]))
    else
      [s[0]] + Collapse(s[1..])
  }

  /** Collapsing keeps the non-whitespace characters, in order. */
  lemma {:induction false} CollapseNonSpace(s: string)
    ensures NonSpace(Collapse(s)) == NonSpace(s)
    decreases |s|
  {
    if s != [] {
      if IsSpace(s[0]) {
        var rest := StripLeft(s[1..]);
        StripLeftSuffix(s[1..]);
        assert s[1..] == s[1..][..|s[1..]| - |rest|] + rest;
        NonSpaceOfSpace(s[1..][..|s[1..]| - |rest|], rest);
        CollapseNonSpace(rest);
        assert ([' '] + Collapse(rest))[1..] == Collapse(rest);
      } else {
        CollapseNonSpace(s[1..]);
        assert ([s[0]] + Collapse(s[1..]))[1..] == Collapse(s[1..]);
      }
    }
  }

  /** Leading whitespace does not change the non-whitespace characters. */
  lemma {:induction false} NonSpaceOfSpace(t: string, s: string)
    requires AllSpace(t)
    ensures NonSpace(t + s) == NonSpace(s)
    decreases |t|
  {
    if t != [] {
      assert (t + s)[1..] == t[1..] + s;
      NonSpaceOfSpace(t[1..], s);
    } else {
      assert t + s == s;
    }
  }

  // ---------------------------------------------------------------------
  // What `split()` and `re.sub(r"\s+", " ", s)` keep
  // ---------------------------------------------------------------------

  /** The characters of a non-whitespace text are all its own. */
  lemma {:induction false} NonSpaceOfWord(w: string)
    requires forall k | 0 <= k < |w| :: !IsSpace(w[k])
    ensures NonSpace(w) == w
  {
    if w != [] {
      NonSpaceOfWord(w[1..]);
      assert w == [w[0]] + w[1..];
    }
  }

  /** Taking the non-whitespace characters distributes over concatenation. */
  lemma {:induction false} NonSpaceAppend(s: string, t: string)
    ensures NonSpace(s + t) == NonSpace(s) + NonSpace(t)
  {
    if s == [] {
      assert s + t == t;
    } else {
      assert (s + t)[1..] == s[1..] + t;
      NonSpaceAppend(s[1..], t);
    }
  }

  /** The words of `s`, concatenated. */
  function Concat(ws: seq<string>): (r: string)
    ensures |ws| == 1 ==> r == ws[0]
  {
    if ws == [] then [] else ws[0] + Concat(ws[1..])
  }

  /** `split()` drops exactly the whitespace: its words, concatenated, are the
      non-whitespace characters of the text, in order. */
  lemma {:induction false} WordsNonSpace(s: string)
    ensures Concat(Words(s)) == NonSpace(s)
    decreases |s|
  {
    if s != [] {
      if IsSpace(s[0]) {
        WordsNonSpace(s[1..]);
      } else {
        var w := TakeWord(s);
        var rest := s[|w|..];
        WordsNonSpace(rest);
        assert s == w + rest;
        NonSpaceAppend(w, rest);
        NonSpaceOfWord(w);
        assert ([w] + Words(rest))[1..] == Words(rest);
      }
    }
  }

  /** Whitespace separates words: the words of `x`, a whitespace character,
      then `y` are the words of `x` followed by the words of `y`. Together
      with `WordsOfSpace` and `WordsOfWord` this fixes `split()` on every
      text. */
  lemma {:induction false} WordsSplitAt(x: string, sp: char, y: string)
    requires IsSpace(sp)
    ensures Words(x + [sp] + y) == Words(x) + Words(y)
    decreases |x|
  {
    var s := x + [sp] + y;
    if x == [] {
      assert s[1..] == y;
    } else if IsSpace(x[0]) {
      assert s[1..] == x[1..] + [sp] + y;
      WordsSplitAt(x[1..], sp, y);
    } else {
      WordsSplitWord(x, sp, y);
    }
  }

  /** The step of `WordsSplitAt` for a text that starts with a word. */
  lemma {:induction false} WordsSplitWord(x: string, sp: char, y: string)
    requires IsSpace(sp) && x != [] && !IsSpace(x[0])
    ensures Words(x + [sp] + y) == Words(x) + Words(y)
    decreases |x|, 0
  {
    var s := x + [sp] + y;
    var w := TakeWord(x);
    assert TakeWord(s) == w by {
      assert s == x + ([sp] + y);
      TakeWordAppend(x, [sp] + y);
    }
    var rest := x[|w|..];
    assert s[|w|..] == rest + [sp] + y;
    WordsSplitAt(rest, sp, y);
    ConsAppend(w, Words(rest), Words(y));
  }

  /** Concatenation is associative. */
  lemma AppendAssoc<T>(a: seq<T>, b: seq<T>, c: seq<T>)
    ensures a + b + c == a + (b + c)
  {
  }

  /** A non-empty suffix is its first element and the rest. */
  lemma AppendUncons<T>(a: seq<T>, b: seq<T>)
    requires b != []
    ensures a + b == a + [b[0]] + b[1..]
  {
    assert b == [b[0]] + b[1..];
  }

  /** Prepending an element and appending a sequence commute. */
  lemma ConsAppend<T>(a: T, b: seq<T>, c: seq<T>)
    ensures [a] + (b + c) == ([a] + b) + c
  {
  }

  /** `re.sub(r"\s+", " ", s)` leaves a text without whitespace as it is. */
  lemma {:induction false} CollapseWordPrefix(w: string, t: string)
    requires forall k | 0 <= k < |w| :: !IsSpace(w[k])
    ensures Collapse(w + t) == w + Collapse(t)
  {
    if w == [] {
      assert w + t == t;
    } else {
      assert (w + t)[1..] == w[1..] + t;
      CollapseWordPrefix(w[1..], t);
    }
  }

  /** `lstrip` stops at the first non-whitespace character. */
  lemma {:induction false} StripLeftAppend(s: string, t: string)
    requires t != [] && !IsSpace(t[0])
    ensures StripLeft(s + t) == StripLeft(s) + t
  {
    if s == [] {
      assert s + t == t;
    } else if IsSpace(s[0]) {
      assert (s + t)[1..] == s[1..] + t;
      StripLeftAppend(s[1..], t);
    }
  }

  /** A non-whitespace character splits the collapsing: the runs before it
      and after it are collapsed on their own. */
  lemma {:induction false} CollapseAround(x: string, c: char, y: string)
    requires !IsSpace(c)
    ensures Collapse(x + [c] + y) == Collapse(x) + [c] + Collapse(y)
    decreases |x|
  {
    var s := x + [c] + y;
    if x == [] {
      assert s[1..] == y;
    } else {
      var h := if IsSpace(x[0]) then ' ' else x[0];
      var l := if IsSpace(x[0]) then StripLeft(x[1..]) else x[1..];
      assert Collapse(s) == [h] + Collapse(l + [c] + y) by {
        if IsSpace(x[0]) {
          assert s[1..] == x[1..] + ([c] + y);
          StripLeftAppend(x[1..], [c] + y);
          assert l + ([c] + y) == l + [c] + y;
        } else {
          assert s[1..] == x[1..] + [c] + y;
        }
      }
      assert Collapse(x) == [h] + Collapse(l);
      CollapseAround(l, c, y);
      ConsAppend(h, Collapse(l) + [c], Collapse(y));
      ConsAppend(h, Collapse(l), [c]);
    }
  }

  /** Collapsing keeps the words: every whitespace run becomes a separator
      again, none disappears and none appears. */
  lemma {:induction false} WordsCollapse(s: string)
    ensures Words(Collapse(s)) == Words(s)
    decreases |s|
  {
    if s != [] {
      if IsSpace(s[0]) {
        var l := StripLeft(s[1..]);
        assert ([' '] + Collapse(l))[1..] == Collapse(l);
        WordsCollapse(l);
        WordsAfterSpace(s);
      } else {
        var w := TakeWord(s);
        var rest := s[|w|..];
        assert s == w + rest;
        CollapseWordPrefix(w, rest);
        if rest == [] {
          WordsOfWord(w);
          assert w + Collapse(rest) == w;
        } else {
          WordsCollapseWord(w, rest);
        }
      }
    }
  }

  /** The words of a text that starts with whitespace are the words after
      that whitespace run. */
  lemma WordsAfterSpace(s: string)
    requires s != [] && IsSpace(s[0])
    ensures Words(s) == Words(StripLeft(s[1..]))
  {
    var t := s[1..];
    var l := StripLeft(t);
    StripLeftSuffix(t);
    TakeDrop(t, |t| - |l|);
    WordsPrependSpace(t[..|t| - |l|], l);
  }

  /** A sequence is its prefix and the rest. */
  lemma TakeDrop<T>(t: seq<T>, n: nat)
    requires n <= |t|
    ensures t == t[..n] + t[n..]
  {
  }

  /** The step of `WordsCollapse` for a word `w` followed by whitespace. */
  lemma {:induction false} WordsCollapseWord(w: string, rest: string)
    requires w != [] && forall k | 0 <= k < |w| :: !IsSpace(w[k])
    requires rest != [] && IsSpace(rest[0])
    ensures Words(w + Collapse(rest)) == Words(w + rest)
    decreases |w + rest|, 0
  {
    var l := StripLeft(rest[1..]);
    assert Words(w + Collapse(rest)) == [w] + Words(l) by {
      assert w + Collapse(rest) == w + [' '] + Collapse(l);
      WordsSplitAt(w, ' ', Collapse(l));
      WordsOfWord(w);
      WordsCollapse(l);
    }
    assert Words(w + rest) == [w] + Words(l) by {
      assert w + rest == w + [rest[0]] + rest[1..];
      WordsSplitAt(w, rest[0], rest[1..]);
      WordsOfWord(w);
      WordsAfterSpace(rest);
      assert Words(rest) == Words(rest[1..]);
    }
  }

  /** Collapsing keeps whitespace at the end (and only there), and gives the
      empty text exactly for the empty text. With the ensures of `Collapse`
      and `WordsCollapse` this fixes the result: the words of the text, one
      plain space between each two, and one more at either end that had
      whitespace. */
  lemma {:induction false} CollapseEnds(s: string)
    ensures Collapse(s) == [] <==> s == []
    ensures (Collapse(s) != [] && IsSpace(Collapse(s)[|Collapse(s)| - 1])) <==> (s != [] && IsSpace(s[|s| - 1]))
    decreases |s|
  {
    if s != [] {
      if IsSpace(s[0]) {
        var l := StripLeft(s[1..]);
        StripLeftSuffix(s[1..]);
        if l == [] {
          assert AllSpace(s[1..]);
          assert IsSpace(s[|s| - 1]) by {
            if |s| > 1 { assert s[|s| - 1] == s[1..][|s| - 2]; }
          }
        } else {
          CollapseEnds(l);
          assert s[|s| - 1] == l[|l| - 1];
        }
      } else if |s| > 1 {
        CollapseEnds(s[1..]);
      }
    }
  }
}
