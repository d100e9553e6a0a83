/**
 * The line reader of gps_read.py as a fold over the characters arriving on the
 * serial port: characters accumulate until a newline; a completed line that
 * starts with `#` is a comment and its text is echoed; any other line updates
 * the satellite count and the position only when it splits into four tokens,
 * the first of them `G`. Reading stops once latitude and longitude are both
 * non-zero.
 *
 * Turning tokens into numbers (`int(float(t))`, `float(t)`) is not modelled:
 * it is the pair of parameters `sats` and `coord`.
 */
module GpsRead {

  /** The whitespace of Python's `split()` on a byte string. */
  predicate IsSpace(c: char) {
    c == ' ' || c == '\t' || c == '\n' || c == '\r' || c == 11 as char || c == 12 as char
  }

  predicate NoSpace(s: string) {
    forall i :: 0 <= i < |s| ==> !IsSpace(s[i])
  }

  /** The longest prefix of `s` without whitespace. */
  function Word(s: string): (w: string)
    ensures w <= s && NoSpace(w)
    ensures |w| == |s| || IsSpace(s[|w|])
  {
    if |s| == 0 || IsSpace(s[0]) then [] else [s[0]] + Word(s[1..])
  }

  /** `s.split()`: the maximal runs of non-whitespace characters, in order. */
  function Split(s: string): (ts: seq<string>)
    ensures forall k :: 0 <= k < |ts| ==> |ts[k]| > 0 && NoSpace(ts[k])
    decreases |s|
  {
    if |s| == 0 then []
    else if IsSpace(s[0]) then Split(s[1..])
    else
      var w := Word(s);
      [w] + Split(s[|w|..])
  }

  /** A word followed by whitespace is read back as that word. */
  lemma {:induction false} WordBeforeSpace(w: string, rest: string)
    requires NoSpace(w)
    requires |rest| == 0 || IsSpace(rest[0])
    ensures Word(w + rest) == w
  {
    if |w| > 0 {
      assert (w + rest)[1..] == w[1..] + rest;
      WordBeforeSpace(w[1..], rest);
    }
  }

  /** Splitting a non-empty word, one whitespace character and the rest gives the word, then the rest's tokens. */
  lemma SplitWordThenSpace(w: string, sp: char, rest: string)
    requires |w| > 0 && NoSpace(w) && IsSpace(sp)
    ensures Split(w + [sp] + rest) == [w] + Split(rest)
  {
    var s := w + [sp] + rest;
    WordBeforeSpace(w, [sp] + rest);
    assert s == w + ([sp] + rest);
    assert s[|w|..] == [sp] + rest;
    assert ([sp] + rest)[1..] == rest;
  }

  /** A string made only of whitespace, the empty string included. */
  predicate Blank(s: string) {
    forall i :: 0 <= i < |s| ==> IsSpace(s[i])
  }

  /** `split()` finds no token exactly in a blank string. */
  lemma {:induction false} SplitEmptyIffBlank(s: string)
    ensures Split(s) == [] <==> Blank(s)
    decreases |s|
  {
    if |s| > 0 && IsSpace(s[0]) {
      SplitEmptyIffBlank(s[1..]);
      if Blank(s[1..]) {
        forall i | 0 <= i < |s|
          ensures IsSpace(s[i])
        {
          if i > 0 {
            assert s[i] == s[1..][i - 1];
          }
        }
      }
    }
  }

  /**
   * A reference tokenizer that scans left to right, `word` being the token read
   * so far: whitespace closes a non-empty token and the end of the input closes
   * the last one.
   */
  function Scan(s: string, word: string): seq<string>
    decreases |s|
  {
    if |s| == 0 then Closed(word)
    else if IsSpace(s[0]) then Closed(word) + Scan(s[1..], [])
    else Scan(s[1..], word + [s[0]])
  }

  /** The token list a finished word contributes: none when it is empty. */
  function Closed(word: string): seq<string> {
    if word == [] then [] else [word]
  }

  /** `split()` closes the tokens where the left-to-right scanner does. */
  lemma {:induction false} SplitIsScan(s: string, word: string)
    requires NoSpace(word)
    ensures Scan(s, word) == Split(word + s)
    decreases |s|
  {
    if |s| == 0 {
      assert word + s == word;
      SplitOfWord(word);
    } else if IsSpace(s[0]) {
      SplitIsScan(s[1..], []);
      assert [] + s[1..] == s[1..];
      SplitClosesWord(word, s);
    } else {
      var longer := word + [s[0]];
      SplitIsScan(s[1..], longer);
      assert longer + s[1..] == word + s;
    }
  }

  /** A string without whitespace is one token, or none when empty. */
  lemma SplitOfWord(word: string)
    requires NoSpace(word)
    ensures Split(word) == Closed(word)
  {
    if word != [] {
      WordBeforeSpace(word, []);
      assert word + [] == word;
      assert word[|word|..] == [];
    }
  }

  /** Whitespace after a word closes it. */
  lemma SplitClosesWord(word: string, s: string)
    requires NoSpace(word) && |s| > 0 && IsSpace(s[0])
    ensures Split(word + s) == Closed(word) + Split(s[1..])
  {
    if word == [] {
      assert word + s == s;
    } else {
      assert word + s == word + [s[0]] + s[1..];
      SplitWordThenSpace(word, s[0], s[1..]);
    }
  }

  /**
   * `re.search(r"^#.*$", line)`: a `#` at position 0, then characters other
   * than a newline up to position k, where k is the end of the line or the
   * position of a final newline.
   */
  predicate CommentMatch(line: string)
    ensures CommentMatch(line) ==> |line| >= 1 && line[0] == '#' && forall i :: 1 <= i < |line| - 1 ==> line[i] != '\n'
  {
    |line| >= 1 && line[0] == '#'
    && exists k :: 1 <= k <= |line| && NoNewlineBetween(line, 1, k)
                  && (k == |line| || (k == |line| - 1 && line[k] == '\n'))
  }

  predicate NoNewlineBetween(line: string, lo: nat, hi: nat)
    requires lo <= hi <= |line|
  {
    forall i :: lo <= i < hi ==> line[i] != '\n'
  }

  /** A string with no newline in it. */
  predicate NoNewline(s: string) {
    forall i :: 0 <= i < |s| ==> s[i] != '\n'
  }

  /** A line as the reader completes it: a newline at the end and nowhere else. */
  predicate Framed(line: string) {
    |line| >= 1 && line[|line| - 1] == '\n' && forall i :: 0 <= i < |line| - 1 ==> line[i] != '\n'
  }

  /** For a completed line the comment pattern matches exactly when the first character is `#`. */
  lemma CommentIffHash(line: string)
    requires Framed(line)
    ensures CommentMatch(line) <==> line[0] == '#'
  {
    if line[0] == '#' {
      assert NoNewlineBetween(line, 1, |line| - 1);
    }
  }

  /** The reader's variables: the pending characters, the line count, the last fix, and the echoed comments. */
  datatype GpsState = GpsState(
    pending: string, count: nat, numSats: int, latitude: real, longitude: real, echoed: seq<string>)

  const Initial := GpsState([], 0, 0, 0.0, 0.0, [])

  /** True when the latest fix is usable, which ends the reading loop. */
  predicate HasFix(st: GpsState)
    ensures HasFix(st) ==> st.latitude != Initial.latitude && st.longitude != Initial.longitude
  {
    st.latitude != 0.0 && st.longitude != 0.0
  }

  /**
   * Handles one completed line (its newline included). The pending text and
   * the count are left alone, only a comment is echoed, and only a
   * four-token line can change whether there is a fix.
   */
  function ProcessLine(st: GpsState, line: string, sats: string -> int, coord: string -> real): (r: GpsState)
    ensures r.pending == st.pending && r.count == st.count
    ensures r.echoed == st.echoed || (CommentMatch(line) && r.echoed == st.echoed + [line[1..]])
    ensures HasFix(r) != HasFix(st) ==> !CommentMatch(line) && |Split(line)| == 4
  {
    if CommentMatch(line) then st.(echoed := st.echoed + [line[1..]])
    else
      var tokens := Split(line);
      if |tokens| == 4 && tokens[0] == "G" then
        st.(numSats := sats(tokens[1]), latitude := coord(tokens[2]), longitude := coord(tokens[3]))
      else st
  }

  /** One character from the port: append it, and on a newline handle the line, clear it and count it. */
  function Step(st: GpsState, c: char, sats: string -> int, coord: string -> real): (r: GpsState)
    ensures r.count == st.count + (if c == '\n' then 1 else 0)
    ensures c == '\n' ==> r.pending == []
    ensures c != '\n' ==> r.pending == st.pending + [c] && r.echoed == st.echoed && HasFix(r) == HasFix(st)
    ensures |r.echoed| >= |st.echoed| && r.echoed[..|st.echoed|] == st.echoed
  {
    var line := st.pending + [c];
    if c == '\n' then ProcessLine(st, line, sats, coord).(pending := [], count := st.count + 1)
    else st.(pending := line)
  }

  /** Every character of `cs`, one step each; echoed comments are only ever appended. */
  function Feed(st: GpsState, cs: string, sats: string -> int, coord: string -> real): (r: GpsState)
    ensures r.count >= st.count
    ensures |r.echoed| >= |st.echoed| && r.echoed[..|st.echoed|] == st.echoed
    decreases |cs|
  {
    if |cs| == 0 then st else Feed(Step(st, cs[0], sats, coord), cs[1..], sats, coord)
  }

  lemma {:induction false} FeedAppend(st: GpsState, a: string, b: string, sats: string -> int, coord: string -> real)
    ensures Feed(st, a + b, sats, coord) == Feed(Feed(st, a, sats, coord), b, sats, coord)
    decreases |a|
  {
    if |a| > 0 {
      assert (a + b)[1..] == a[1..] + b;
      FeedAppend(Step(st, a[0], sats, coord), a[1..], b, sats, coord);
    } else {
      assert a + b == b;
    }
  }

  function NewlineCount(cs: string): (n: nat)
    ensures n <= |cs|
  {
    if |cs| == 0 then 0 else (if cs[0] == '\n' then 1 else 0) + NewlineCount(cs[1..])
  }

  /** The count grows by one per newline fed, comment or not. */
  lemma {:induction false} FeedCountsLines(st: GpsState, cs: string, sats: string -> int, coord: string -> real)
    ensures Feed(st, cs, sats, coord).count == st.count + NewlineCount(cs)
    decreases |cs|
  {
    if |cs| > 0 {
      FeedCountsLines(Step(st, cs[0], sats, coord), cs[1..], sats, coord);
    }
  }

  /** Characters without a newline only accumulate: nothing else changes. */
  lemma {:induction false} FeedAccumulates(st: GpsState, cs: string, sats: string -> int, coord: string -> real)
    requires NoNewline(cs)
    ensures Feed(st, cs, sats, coord) == st.(pending := st.pending + cs)
    decreases |cs|
  {
    if |cs| > 0 {
      FeedAccumulates(Step(st, cs[0], sats, coord), cs[1..], sats, coord);
      assert st.pending + [cs[0]] + cs[1..] == st.pending + cs;
    }
  }

  /**
   * A newline completes the pending characters into a line, newline included;
   * that line is handled, then the pending text is emptied and the count grows
   * by one.
   */
  lemma FeedCompletesLine(st: GpsState, cs: string, sats: string -> int, coord: string -> real)
    requires NoNewline(cs)
    ensures Feed(st, cs + ['\n'], sats, coord)
         == ProcessLine(st, st.pending + cs + ['\n'], sats, coord).(pending := [], count := st.count + 1)
  {
    FeedAppend(st, cs, ['\n'], sats, coord);
    FeedAccumulates(st, cs, sats, coord);
  }

  /** Feeding never leaves a newline in the pending text: a newline always completes the line. */
  lemma {:induction false} FeedKeepsPendingNewlineFree(st: GpsState, cs: string, sats: string -> int, coord: string -> real)
    requires NoNewline(st.pending)
    ensures NoNewline(Feed(st, cs, sats, coord).pending)
    decreases |cs|
  {
    if |cs| > 0 {
      var next := Step(st, cs[0], sats, coord);
      assert NoNewline(next.pending);
      FeedKeepsPendingNewlineFree(next, cs[1..], sats, coord);
    }
  }

  /**
   * Whatever has been read from the start, the line the next newline
   * completes is framed, so it is a comment exactly when it starts with `#`.
   */
  lemma CompletedLineIsFramed(cs: string, sats: string -> int, coord: string -> real)
    ensures var st := Feed(Initial, cs, sats, coord);
      var line := st.pending + ['\n'];
      && Framed(line)
      && (CommentMatch(line) <==> line[0] == '#')
      && Step(st, '\n', sats, coord) == ProcessLine(st, line, sats, coord).(pending := [], count := st.count + 1)
  {
    var st := Feed(Initial, cs, sats, coord);
    FeedKeepsPendingNewlineFree(Initial, cs, sats, coord);
    var line := st.pending + ['\n'];
    assert line[..|line| - 1] == st.pending;
    CommentIffHash(line);
  }

  /** A comment line is echoed without its `#`, and the fix is not touched. */
  lemma CommentKeepsFix(st: GpsState, line: string, sats: string -> int, coord: string -> real)
    requires Framed(line) && line[0] == '#'
    ensures ProcessLine(st, line, sats, coord) == st.(echoed := st.echoed + [line[1..]])
  {
    CommentIffHash(line);
  }

  /**
   * A line that is not a comment changes the fix exactly when it has four
   * tokens starting with `G`; any other line changes nothing at all.
   */
  lemma OtherLinesKeepState(st: GpsState, line: string, sats: string -> int, coord: string -> real)
    requires Framed(line) && line[0] != '#'
    ensures var tokens := Split(line);
      ProcessLine(st, line, sats, coord)
      == if |tokens| == 4 && tokens[0] == "G"
         then st.(numSats := sats(tokens[1]), latitude := coord(tokens[2]), longitude := coord(tokens[3]))
         else st
  {
    CommentIffHash(line);
  }

  /** The line `G <n> <lat> <lon>` and its newline, as the GPS module sends a fix. */
  function FixLine(n: string, lat: string, lon: string): string {
    "G" + [' '] + (n + [' '] + (lat + [' '] + (lon + ['\n'])))
  }

  /** A fix line splits into the tokens `G`, n, lat and lon. */
  lemma FixLineTokens(n: string, lat: string, lon: string)
    requires |n| > 0 && NoSpace(n) && |lat| > 0 && NoSpace(lat) && |lon| > 0 && NoSpace(lon)
    ensures Split(FixLine(n, lat, lon)) == ["G", n, lat, lon]
  {
    var r3 := lon + ['\n'];
    var r2 := lat + [' '] + r3;
    var r1 := n + [' '] + r2;
    assert Split(r3) == [lon] by {
      SplitWordThenSpace(lon, '\n', []);
      assert lon + ['\n'] + [] == r3;
    }
    assert Split(r2) == [lat, lon] by {
      SplitWordThenSpace(lat, ' ', r3);
    }
    assert Split(r1) == [n, lat, lon] by {
      SplitWordThenSpace(n, ' ', r2);
    }
    assert FixLine(n, lat, lon) == "G" + [' '] + r1;
    SplitWordThenSpace("G", ' ', r1);
  }

  /** A fix line sets the satellite count, the latitude and the longitude from its three tokens. */
  lemma FixLineSetsFix(st: GpsState, n: string, lat: string, lon: string, sats: string -> int, coord: string -> real)
    requires |n| > 0 && NoSpace(n) && |lat| > 0 && NoSpace(lat) && |lon| > 0 && NoSpace(lon)
    ensures ProcessLine(st, FixLine(n, lat, lon), sats, coord)
         == st.(numSats := sats(n), latitude := coord(lat), longitude := coord(lon))
  {
    var line := FixLine(n, lat, lon);
    FixLineTokens(n, lat, lon);
    assert line[0] == 'G';
  }

  /**
   * The reading loop: before each character it stops if the fix is usable.
   * The result is the final state and how many characters were read.
   */
  function Run(st: GpsState, cs: string, sats: string -> int, coord: string -> real): (r: (GpsState, nat))
    ensures r.1 <= |cs|
    ensures r.0 == Feed(st, cs[..r.1], sats, coord)
    ensures r.1 < |cs| ==> HasFix(r.0)
    ensures forall j :: 0 <= j < r.1 ==> !HasFix(Feed(st, cs[..j], sats, coord))
    decreases |cs|
  {
    if HasFix(st) || |cs| == 0 then (st, 0)
    else
      var next := Step(st, cs[0], sats, coord);
      var (last, k) := Run(next, cs[1..], sats, coord);
      assert cs[..k + 1][1..] == cs[1..][..k];
      forall j | 0 <= j < k + 1
        ensures !HasFix(Feed(st, cs[..j], sats, coord))
      {
        if j > 0 {
          assert cs[..j][1..] == cs[1..][..j - 1];
        }
      }
      (last, k + 1)
  }

  /** A fix with a zero coordinate does not stop the loop: the next character is still read. */
  lemma ZeroCoordinateKeepsReading(st: GpsState, c: char, rest: string, sats: string -> int, coord: string -> real)
    requires st.latitude == 0.0 || st.longitude == 0.0
    ensures Run(st, [c] + rest, sats, coord).1 >= 1
  {
  }
}
