/**
 * Reading a board from the lines of a text file: each line is split on
 * whitespace into tokens, a line must have 9 tokens, every token must be
 * made of decimal digits, and there must be 9 lines. Anything else raises
 * the game's board error.
 */
module BoardText {
  import opened Wrappers
  import opened SudokuRules

  /** The three ways a board file is rejected. */
  datatype SudokuError =
    | RowLengthError   // "Each line in the sudoku puzzle must be 9 chars long."
    | CharacterError   // "Valid characters for a sudoku puzzle must be in 0-9"
    | RowCountError    // "Each sudoku puzzle must be 9 lines long"

  /** The ASCII characters that separate tokens in a whitespace split:
      space, tab, line feed, vertical tab, form feed, carriage return and
      the four information separators 0x1C..0x1F. */
  predicate IsSpace(ch: char)
  {
    ch == ' ' || ('\t' <= ch <= '\r') || (28 <= ch as int <= 31)
  }

  predicate NoSpace(t: string)
  {
    forall k :: 0 <= k < |t| ==> !IsSpace(t[k])
  }

  /** The longest prefix of s without whitespace. */
  function Word(s: string): (w: string)
    ensures w <= s && NoSpace(w)
    ensures |w| == |s| || IsSpace(s[|w|])
  {
    if s == [] || IsSpace(s[0]) then [] else [s[0]] + Word(s[1..])
  }

  /** The maximal runs of non-whitespace characters of s, in order
      (Python's `str.split()` with no argument). */
  function Split(s: string): (tokens: seq<string>)
    ensures forall t :: t in tokens ==> t != [] && NoSpace(t)
    decreases |s|
  {
    if s == [] then []
    else if IsSpace(s[0]) then Split(s[1..])
    else var w := Word(s); [w] + Split(s[|w|..])
  }

  /** s without its leading whitespace: a suffix of s that does not start
      with whitespace, and only whitespace comes before it. */
  function TrimLeft(s: string): (r: string)
    ensures r == [] || !IsSpace(r[0])
    ensures |r| <= |s| && r == s[|s| - |r|..]
    ensures forall k :: 0 <= k < |s| - |r| ==> IsSpace(s[k])
  {
    if s != [] && IsSpace(s[0]) then TrimLeft(s[1..]) else s
  }

  /** s without its trailing whitespace: a prefix of s that does not end
      with whitespace, and only whitespace comes after it. */
  function TrimRight(s: string): (r: string)
    ensures r == [] || !IsSpace(r[|r| - 1])
    ensures r <= s
    ensures forall k :: |r| <= k < |s| ==> IsSpace(s[k])
  {
    if s != [] && IsSpace(s[|s| - 1]) then TrimRight(s[..|s| - 1]) else s
  }

  /** r is the slice of s starting at a, with only whitespace before it
      and after it. */
  predicate SliceAmidSpace(s: string, r: string, a: int)
  {
    && 0 <= a && a + |r| <= |s| && r == s[a..a + |r|]
    && (forall k :: 0 <= k < a ==> IsSpace(s[k]))
    && (forall k :: a + |r| <= k < |s| ==> IsSpace(s[k]))
  }

  /** s without leading and trailing whitespace (`str.strip()`): a slice of
      s that keeps every non-whitespace character of s and neither starts
      nor ends with whitespace. */
  function Strip(s: string): (r: string)
    ensures r == [] || (!IsSpace(r[0]) && !IsSpace(r[|r| - 1]))
    ensures exists a :: SliceAmidSpace(s, r, a)
  {
    var l := TrimLeft(s);
    var r := TrimRight(l);
    StripSlice(s, l, r);
    r
  }

  /** Trimming a suffix of s that follows whitespace down to a prefix that
      precedes whitespace leaves a slice amid whitespace. */
  lemma StripSlice(s: string, l: string, r: string)
    requires |l| <= |s| && l == s[|s| - |l|..] && forall k :: 0 <= k < |s| - |l| ==> IsSpace(s[k])
    requires r <= l && forall k :: |r| <= k < |l| ==> IsSpace(l[k])
    ensures SliceAmidSpace(s, r, |s| - |l|)
  {
    var a := |s| - |l|;
    assert r == l[..|r|];
    assert l[..|r|] == s[a..a + |r|];
    forall k | a + |r| <= k < |s|
      ensures IsSpace(s[k])
    {
      assert s[k] == l[k - a];
    }
  }

  /** Cutting s anywhere after its first word keeps that first word. */
  lemma {:induction false} WordOfPrefix(s: string, m: int)
    requires |Word(s)| <= m <= |s|
    ensures Word(s[..m]) == Word(s)
  {
    if s != [] && !IsSpace(s[0]) {
      assert s[..m][1..] == s[1..][..m - 1];
      WordOfPrefix(s[1..], m - 1);
    } else if m > 0 {
      assert s[..m][0] == s[0];
    }
  }

  /** A trailing whitespace character does not change the split. */
  lemma {:induction false} SplitDropTrailingSpace(s: string)
    requires s != [] && IsSpace(s[|s| - 1])
    ensures Split(s[..|s| - 1]) == Split(s)
    decreases |s|, 1
  {
    if |s| > 1 {
      if IsSpace(s[0]) {
        SplitDropTrailingSpaceAfterSpace(s);
      } else {
        SplitDropTrailingSpaceAfterWord(s);
      }
    }
  }

  lemma {:induction false} SplitDropTrailingSpaceAfterSpace(s: string)
    requires |s| > 1 && IsSpace(s[0]) && IsSpace(s[|s| - 1])
    ensures Split(s[..|s| - 1]) == Split(s)
    decreases |s|, 0
  {
    var s' := s[..|s| - 1];
    assert s'[1..] == s[1..][..|s| - 2];
    SplitDropTrailingSpace(s[1..]);
  }

  lemma {:induction false} SplitDropTrailingSpaceAfterWord(s: string)
    requires |s| > 1 && !IsSpace(s[0]) && IsSpace(s[|s| - 1])
    ensures Split(s[..|s| - 1]) == Split(s)
    decreases |s|, 0
  {
    var s' := s[..|s| - 1];
    var w := Word(s);
    assert |w| < |s|;
    var rest := s[|w|..];
    WordOfPrefix(s, |s| - 1);
    assert s'[0] == s[0];
    SplitAtWord(s);
    SplitAtWord(s');
    assert s'[|w|..] == rest[..|rest| - 1];
    assert rest[|rest| - 1] == s[|s| - 1];
    SplitDropTrailingSpace(rest);
  }

  /** A text starting with a word splits into that word and the split of
      what follows it. */
  lemma SplitAtWord(s: string)
    requires s != [] && !IsSpace(s[0])
    ensures Split(s) == [Word(s)] + Split(s[|Word(s)|..])
  {
  }

  /** Trailing whitespace does not change the split. */
  lemma {:induction false} SplitTrimRight(s: string)
    ensures Split(TrimRight(s)) == Split(s)
    decreases |s|
  {
    if s != [] && IsSpace(s[|s| - 1]) {
      SplitTrimRight(s[..|s| - 1]);
      SplitDropTrailingSpace(s);
    }
  }

  /** Leading whitespace does not change the split. */
  lemma {:induction false} SplitTrimLeft(s: string)
    ensures Split(TrimLeft(s)) == Split(s)
    decreases |s|
  {
    if s != [] && IsSpace(s[0]) {
      SplitTrimLeft(s[1..]);
    }
  }

  /** Stripping a line before splitting it changes nothing. */
  lemma SplitStrip(s: string)
    ensures Split(Strip(s)) == Split(s)
  {
    SplitTrimRight(TrimLeft(s));
    SplitTrimLeft(s);
  }

  /** Tokens written out, each followed by a space. */
  function Spaced(tokens: seq<string>): string
  {
    if tokens == [] then [] else tokens[0] + " " + Spaced(tokens[1..])
  }

  /** A word followed by whitespace or by nothing is the first word. */
  lemma {:induction false} WordBeforeSpace(t: string, rest: string)
    requires t != [] && NoSpace(t)
    requires rest == [] || IsSpace(rest[0])
    ensures Word(t + rest) == t
  {
    assert (t + rest)[1..] == t[1..] + rest;
    if |t| > 1 {
      WordBeforeSpace(t[1..], rest);
    }
  }

  /** Splitting space-separated tokens gives the tokens back. */
  lemma {:induction false} SplitSpaced(tokens: seq<string>)
    requires forall t :: t in tokens ==> t != [] && NoSpace(t)
    ensures Split(Spaced(tokens)) == tokens
  {
    if tokens != [] {
      var t, rest := tokens[0], Spaced(tokens[1..]);
      assert t in tokens;
      assert forall u :: u in tokens[1..] ==> u in tokens;
      assert Spaced(tokens) == t + " " + rest;
      assert t + " " + rest == t + (" " + rest);
      WordBeforeSpace(t, " " + rest);
      assert (t + " " + rest)[|t|..] == " " + rest;
      assert (" " + rest)[1..] == rest;
      SplitSpaced(tokens[1..]);
    }
  }

  predicate AllSpace(t: string)
  {
    forall k :: 0 <= k < |t| ==> IsSpace(t[k])
  }

  /** gaps[0] + tokens[0] + gaps[1] + ... + tokens[n - 1] + gaps[n]. */
  function Interleave(gaps: seq<string>, tokens: seq<string>): string
    requires |gaps| == |tokens| + 1
  {
    if tokens == [] then gaps[0] else gaps[0] + tokens[0] + Interleave(gaps[1..], tokens[1..])
  }

  /** Every gap is whitespace, and the gaps between consecutive tokens are
      not empty. */
  predicate Separators(gaps: seq<string>)
  {
    && (forall i :: 0 <= i < |gaps| ==> AllSpace(gaps[i]))
    && (forall i :: 0 < i < |gaps| - 1 ==> gaps[i] != [])
  }

  predicate Words(tokens: seq<string>)
  {
    forall i :: 0 <= i < |tokens| ==> tokens[i] != [] && NoSpace(tokens[i])
  }

  /** s is the tokens in order with whitespace runs around them, and
      non-empty ones between consecutive tokens, so every token is a
      maximal run of non-whitespace characters. */
  predicate Layout(s: string, gaps: seq<string>, tokens: seq<string>)
  {
    |gaps| == |tokens| + 1 && Separators(gaps) && Words(tokens) && s == Interleave(gaps, tokens)
  }

  /** The whitespace runs of s around and between its tokens. */
  ghost function Gaps(s: string): (gaps: seq<string>)
    ensures |gaps| == |Split(s)| + 1
    ensures s != [] && IsSpace(s[0]) ==> gaps[0] != []
    decreases |s|
  {
    if s == [] then [[]]
    else if IsSpace(s[0]) then var g := Gaps(s[1..]); [[s[0]] + g[0]] + g[1..]
    else [[]] + Gaps(s[|Word(s)|..])
  }

  /** A whitespace character in front widens the leading gap. */
  lemma LayoutSpace(c: char, s: string, gaps: seq<string>, tokens: seq<string>)
    requires IsSpace(c) && Layout(s, gaps, tokens)
    ensures Layout([c] + s, [[c] + gaps[0]] + gaps[1..], tokens)
  {
    var g := [[c] + gaps[0]] + gaps[1..];
    assert g[0] == [c] + gaps[0] && g[1..] == gaps[1..];
    assert AllSpace(gaps[0]);
    assert forall i :: 0 < i < |g| ==> g[i] == gaps[i];
  }

  /** A word in front, followed by a non-empty gap unless nothing follows,
      becomes the first token. */
  lemma LayoutWord(w: string, s: string, gaps: seq<string>, tokens: seq<string>)
    requires w != [] && NoSpace(w) && Layout(s, gaps, tokens)
    requires tokens != [] ==> gaps[0] != []
    ensures Layout(w + s, [[]] + gaps, [w] + tokens)
  {
    var g, ts := [[]] + gaps, [w] + tokens;
    assert g[1..] == gaps && ts[1..] == tokens;
    assert forall i :: 0 < i < |g| ==> g[i] == gaps[i - 1];
    assert forall i :: 0 < i < |ts| ==> ts[i] == tokens[i - 1];
  }

  /** Split(s) and the whitespace between its tokens make up s. */
  lemma {:induction false} SplitLayout(s: string)
    ensures Layout(s, Gaps(s), Split(s))
    decreases |s|
  {
    if s == [] {
    } else if IsSpace(s[0]) {
      SplitLayout(s[1..]);
      LayoutSpace(s[0], s[1..], Gaps(s[1..]), Split(s[1..]));
      assert s == [s[0]] + s[1..];
    } else {
      var w := Word(s);
      var rest := s[|w|..];
      SplitLayout(rest);
      LayoutWord(w, rest, Gaps(rest), Split(rest));
      assert s == w + rest;
    }
  }

  /** The layout of the text after the first token and its leading gap. */
  lemma LayoutTail(s: string, gaps: seq<string>, tokens: seq<string>)
    requires Layout(s, gaps, tokens) && tokens != []
    ensures Layout(Interleave(gaps[1..], tokens[1..]), gaps[1..], tokens[1..])
    ensures s == gaps[0] + (tokens[0] + Interleave(gaps[1..], tokens[1..]))
    ensures tokens[0] != [] && NoSpace(tokens[0]) && AllSpace(gaps[0])
    ensures Interleave(gaps[1..], tokens[1..]) == [] || IsSpace(Interleave(gaps[1..], tokens[1..])[0])
  {
    var rest := Interleave(gaps[1..], tokens[1..]);
    assert forall i :: 0 <= i < |gaps| - 1 ==> gaps[1..][i] == gaps[i + 1];
    assert AllSpace(gaps[1]);
    if tokens[1..] != [] {
      assert rest == gaps[1] + (tokens[1] + Interleave(gaps[2..], tokens[2..]));
      assert rest[0] == gaps[1][0];
    }
  }

  /** Conversely, tokens laid out with whitespace like that are what Split
      gives: Split(s) is the only such sequence of tokens. */
  lemma {:induction false} LayoutSplit(s: string, gaps: seq<string>, tokens: seq<string>)
    requires Layout(s, gaps, tokens)
    ensures tokens == Split(s)
    decreases |tokens|
  {
    if tokens == [] {
      SplitSpacePrefix(gaps[0], []);
      assert gaps[0] + [] == gaps[0];
    } else {
      var t := tokens[0];
      var rest := Interleave(gaps[1..], tokens[1..]);
      LayoutTail(s, gaps, tokens);
      LayoutSplit(rest, gaps[1..], tokens[1..]);
      WordBeforeSpace(t, rest);
      assert (t + rest)[|t|..] == rest;
      SplitSpacePrefix(gaps[0], t + rest);
    }
  }

  /** Leading whitespace does not change the split. */
  lemma {:induction false} SplitSpacePrefix(a: string, rest: string)
    requires AllSpace(a)
    ensures Split(a + rest) == Split(rest)
    decreases |a|
  {
    if a == [] {
      assert a + rest == rest;
    } else {
      assert (a + rest)[1..] == a[1..] + rest;
      SplitSpacePrefix(a[1..], rest);
    }
  }

  /** A token of decimal digits only (`str.isdigit()` on ASCII text, which
      is false for the empty string). */
  predicate IsDigits(t: string)
  {
    |t| > 0 && forall k :: 0 <= k < |t| ==> '0' <= t[k] <= '9'
  }

  /** The number that a string of decimal digits denotes (`int(t)`). */
  function DecimalValue(t: string): nat
    requires forall k :: 0 <= k < |t| ==> '0' <= t[k] <= '9'
  {
    if t == [] then 0 else 10 * DecimalValue(t[..|t| - 1]) + (t[|t| - 1] as int - '0' as int)
  }

  /** The shortest decimal numeral of n (`str(n)`): digits only, with no
      leading zero unless n is 0. */
  function Decimal(n: nat): (t: string)
    ensures IsDigits(t)
    ensures t[0] == '0' ==> n == 0
  {
    if n < 10 then ['0' + n as char] else Decimal(n / 10) + ['0' + (n % 10) as char]
  }

  /** Reading back a written number gives the number. */
  lemma {:induction false} DecimalRoundTrip(n: nat)
    ensures DecimalValue(Decimal(n)) == n
  {
    var t := Decimal(n);
    if n >= 10 {
      assert t[..|t| - 1] == Decimal(n / 10);
      DecimalRoundTrip(n / 10);
    }
  }

  /** What the check of one line's tokens gives: the row-length error
      unless there are 9 tokens, else the character error unless each is a
      numeral, else the numbers they denote. */
  ghost function RowResult(tokens: seq<string>): Result<seq<int>, SudokuError>
  {
    if |tokens| != 9 then Err(RowLengthError)
    else if forall k :: 0 <= k < 9 ==> IsDigits(tokens[k]) then Ok(seq(9, k requires 0 <= k < 9 => DecimalValue(tokens[k])))
    else Err(CharacterError)
  }

  /** A line with 9 tokens, all of them digits. */
  ghost predicate LineOk(line: string)
  {
    RowResult(Split(line)).Ok?
  }

  /** Line k is the first line that is not well formed. */
  ghost predicate FirstBadLine(lines: seq<string>, k: int)
  {
    0 <= k < |lines| && !LineOk(lines[k]) && forall k' :: 0 <= k' < k ==> LineOk(lines[k'])
  }

  ghost predicate AllLinesOk(lines: seq<string>)
  {
    forall k :: 0 <= k < |lines| ==> LineOk(lines[k])
  }

  /** The first line at or after n that is not well formed. */
  ghost function FirstBadFrom(lines: seq<string>, n: nat): (r: Option<nat>)
    ensures r.None? <==> forall k :: n <= k < |lines| ==> LineOk(lines[k])
    ensures r.Some? ==>
      && n <= r.value < |lines| && !LineOk(lines[r.value])
      && forall k :: n <= k < r.value ==> LineOk(lines[k])
    decreases |lines| - n
  {
    if n >= |lines| then None
    else if !LineOk(lines[n]) then Some(n)
    else FirstBadFrom(lines, n + 1)
  }

  /** The board that well-formed lines denote. */
  ghost function BoardOf(lines: seq<string>): (g: Grid)
    requires |lines| == 9 && AllLinesOk(lines)
    ensures IsGrid(g)
    ensures forall i, j :: InBounds(i, j) ==> g[i][j] == DecimalValue(Split(lines[i])[j])
  {
    seq(9, i requires 0 <= i < 9 => RowResult(Split(lines[i])).value)
  }

  /** What parsing the lines gives: the error of the first bad line, else
      the row-count error, else the board. */
  ghost function Parse(lines: seq<string>): Result<Grid, SudokuError>
  {
    match FirstBadFrom(lines, 0)
    case Some(k) => Err(RowResult(Split(lines[k])).error)
    case None => if |lines| != 9 then Err(RowCountError) else Ok(BoardOf(lines))
  }

  /** There is only one first bad line, and with one the lines are not all
      well formed. */
  lemma FirstBadLineUnique(lines: seq<string>, n: int)
    requires FirstBadLine(lines, n)
    ensures forall k :: FirstBadLine(lines, k) <==> k == n
    ensures !AllLinesOk(lines)
  {
  }

  /** The outcomes of parsing, each in terms of the lines alone: a board
      exactly when there are 9 lines of 9 numerals each; the row-length
      error exactly when the first bad line does not have 9 tokens; the
      character error exactly when it has 9 tokens and one is not a
      numeral; the row-count error exactly when every line is good but
      there are not 9 of them. */
  lemma ParseOutcomes(lines: seq<string>)
    ensures Parse(lines).Ok? <==> |lines| == 9 && AllLinesOk(lines)
    ensures Parse(lines) == Err(RowLengthError) <==> exists k :: FirstBadLine(lines, k) && |Split(lines[k])| != 9
    ensures Parse(lines) == Err(CharacterError) <==>
      exists k :: FirstBadLine(lines, k) && |Split(lines[k])| == 9 && exists t :: 0 <= t < 9 && !IsDigits(Split(lines[k])[t])
    ensures Parse(lines) == Err(RowCountError) <==> AllLinesOk(lines) && |lines| != 9
  {
    var b := FirstBadFrom(lines, 0);
    if b.Some? {
      var n := b.value;
      assert FirstBadLine(lines, n);
      FirstBadLineUnique(lines, n);
    }
  }

  /** The tokens of a line as the parser takes them (`line.strip().split()`);
      stripping first makes no difference to them. */
  method StripSplit(line: string) returns (tokens: seq<string>)
    ensures tokens == Split(line)
  {
    SplitStrip(line);
    tokens := Split(Strip(line));
  }

  /** Checks the tokens of one line: their count, then each token in turn,
      converting the numerals to numbers. */
  method ParseRow(tokens: seq<string>) returns (r: Result<seq<int>, SudokuError>)
    ensures r == RowResult(tokens)
  {
    if |tokens| != 9 {
      return Err(RowLengthError);
    }
    var tempList: seq<int> := [];
    for t := 0 to 9
      invariant |tempList| == t
      invariant forall k :: 0 <= k < t ==> IsDigits(tokens[k]) && tempList[k] == DecimalValue(tokens[k])
    {
      var number := tokens[t];
      if !IsDigits(number) {
        return Err(CharacterError);
      }
      tempList := tempList + [DecimalValue(number)];
    }
    assert tempList == RowResult(tokens).value;
    return Ok(tempList);
  }

  /** Parses the lines of a board file. Lines are checked in order, each
      stripped and split into tokens; the line count is checked only once
      every line has passed. */
  method CreateBoard(boardFile: seq<string>) returns (r: Result<Grid, SudokuError>)
    ensures r == Parse(boardFile)
  {
    var board: seq<seq<int>> := [];
    for n := 0 to |boardFile|
      invariant |board| == n
      invariant FirstBadFrom(boardFile, 0) == FirstBadFrom(boardFile, n)
      invariant forall k :: 0 <= k < n ==> LineOk(boardFile[k]) && board[k] == RowResult(Split(boardFile[k])).value
    {
      var line := StripSplit(boardFile[n]);
      var tempList := ParseRow(line);
      if tempList.Err? {
        return Err(tempList.error);
      }
      board := board + [tempList.value];
    }
    if |board| != 9 {
      return Err(RowCountError);
    }
    assert board == BoardOf(boardFile);
    return Ok(board);
  }
}
