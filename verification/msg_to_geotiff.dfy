/**
 * The pure logic of msg_to_geotiff.py: the argument check, the dated
 * directory layout, the renaming of HRIT segment files, the output file names
 * and the argument vectors handed to gdal_translate and gdalwarp.
 */
module MsgToGeotiff {
  import opened Wrappers
  import opened Digits

  /**
   * The datetime rule: `int(argv[1])` has twelve digits, a minus sign counted
   * as one. An accepted argument is never zero and has at least twelve
   * characters.
   */
  predicate DatetimeAccepted(s: string)
    ensures DatetimeAccepted(s) ==> ParseInt(s).Some? && ParseInt(s).value != 0 && |s| >= 12
  {
    ParseInt(s).Some? && (ParseIntDigitsBound(s); GetDigits(ParseInt(s).value) == 12)
  }

  lemma Pow10Constants()
    ensures Pow10(10) == 10000000000
    ensures Pow10(11) == 100000000000
    ensures Pow10(12) == 1000000000000
  {
    assert Pow10(5) == 100000;
    assert Pow10(10) == 10000000000;
  }

  /**
   * A datetime is accepted exactly when its value has twelve digits, or is
   * negative with eleven.
   */
  lemma DatetimeAcceptedRange(s: string)
    requires ParseInt(s).Some?
    ensures var v := ParseInt(s).value;
      DatetimeAccepted(s) <==> (100000000000 <= v <= 999999999999 || -99999999999 <= v <= -10000000000)
  {
    var v := ParseInt(s).value;
    Pow10Constants();
    if 100000000000 <= v <= 999999999999 {
      DigitCountUnique(v, 12);
    } else if -99999999999 <= v <= -10000000000 {
      DigitCountUnique(-v, 11);
    }
  }

  /** The longitude limits of the box arguments: a half-open interval, so -180 is out and 180 is in. */
  predicate LongitudeOk(v: real)
    ensures LongitudeOk(v) ==> -v < 180.0 && v != -180.0
  {
    -180.0 < v <= 180.0
  }

  /** The latitude limits of the box arguments: a closed interval, both poles included. */
  predicate LatitudeOk(v: real)
    ensures LatitudeOk(v) ==> -90.0 <= -v <= 90.0
  {
    -90.0 <= v <= 90.0
  }

  /** The four bounding-box arguments, kept as the strings given on the command line. */
  datatype BoundingBox = BoundingBox(left: string, top: string, right: string, bottom: string)

  /** What a successful argument check leaves: the datetime and, with six arguments, the box. */
  datatype Config = Config(datetime: string, box: Option<BoundingBox>)

  datatype ArgsOutcome =
      Proceed(config: Config)
      /** The usage line is printed and the program exits with -1. */
    | Usage
      /** The usage line and the coordinate-limits message are printed; exit -1. */
    | OutOfLimits
      /** `int(argv[1])` raises `ValueError`. */
    | NotAnInteger

  /** The four box arguments `argv[2..6]` (left, top, right, bottom) lie within the limits. */
  predicate BoxWithinLimits(argv: seq<string>, num: string -> real)
    requires |argv| == 6
  {
    LongitudeOk(num(argv[2])) && LatitudeOk(num(argv[3]))
    && LongitudeOk(num(argv[4])) && LatitudeOk(num(argv[5]))
  }

  /**
   * The argument check. `argv[0]` is the script name; `num` reads a command
   * line string as a number.
   */
  function ParseArgs(argv: seq<string>, num: string -> real): (r: ArgsOutcome)
    ensures |argv| != 2 && |argv| != 6 ==> r == Usage
    ensures r.NotAnInteger? <==> (|argv| == 2 || |argv| == 6) && ParseInt(argv[1]).None?
    ensures r.Proceed? ==> r.config.datetime == argv[1]
    ensures |argv| == 2 ==> (r.Proceed? <==> DatetimeAccepted(argv[1]))
    ensures |argv| == 2 && r.Proceed? ==> r.config.box == None
    ensures |argv| == 6 ==> (r.Proceed? <==> DatetimeAccepted(argv[1]) && BoxWithinLimits(argv, num))
    ensures |argv| == 6 && r.Proceed? ==> r.config.box == Some(BoundingBox(argv[2], argv[3], argv[4], argv[5]))
    ensures r.OutOfLimits? <==> |argv| == 6 && DatetimeAccepted(argv[1]) && !BoxWithinLimits(argv, num)
  {
    if |argv| == 2 then
      match ParseInt(argv[1])
      case None => NotAnInteger
      case Some(v) =>
        if GetDigits(v) == 12 then Proceed(Config(argv[1], None)) else Usage
    else if |argv| == 6 then
      match ParseInt(argv[1])
      case None => NotAnInteger
      case Some(v) =>
        var datetime := if GetDigits(v) == 12 then Some(argv[1]) else None;
        var left := if LongitudeOk(num(argv[2])) then Some(argv[2]) else None;
        var top := if LatitudeOk(num(argv[3])) then Some(argv[3]) else None;
        var right := if LongitudeOk(num(argv[4])) then Some(argv[4]) else None;
        var bottom := if LatitudeOk(num(argv[5])) then Some(argv[5]) else None;
        if datetime.None? then Usage
        else if left.None? || top.None? || right.None? || bottom.None? then OutOfLimits
        else Proceed(Config(datetime.value, Some(BoundingBox(left.value, top.value, right.value, bottom.value))))
    else Usage
  }

  /** Python's slice `s[lo:hi]` for non-negative bounds, clamped to the string. */
  function PySlice(s: string, lo: nat, hi: nat): (r: string)
    ensures |r| <= |s|
    ensures hi <= |s| && lo <= hi ==> r == s[lo..hi]
  {
    var h := if hi <= |s| then hi else |s|;
    var l := if lo <= h then lo else h;
    s[l..h]
  }

  /** The directory components `datetime[0:4]`, `[4:6]` and `[6:8]`. */
  function DirectoryParts(datetime: string): (r: (string, string, string))
    ensures r.0 + r.1 + r.2 == datetime[..if |datetime| < 8 then |datetime| else 8]
    ensures |datetime| >= 8 ==> |r.0| == 4 && |r.1| == 2 && |r.2| == 2
  {
    (PySlice(datetime, 0, 4), PySlice(datetime, 4, 6), PySlice(datetime, 6, 8))
  }

  /** An accepted datetime is at least twelve characters long, so the three parts are never cut short. */
  lemma AcceptedDatetimeHasFullParts(datetime: string)
    requires DatetimeAccepted(datetime)
    ensures |datetime| >= 12
    ensures DirectoryParts(datetime) == (datetime[0..4], datetime[4..6], datetime[6..8])
  {
    ParseIntDigitsBound(datetime);
  }

  /** True when the four characters of `s` at `i` spell `IODC`. */
  predicate IodcAt(s: string, i: int) {
    0 <= i && i + 4 <= |s| && s[i..i + 4] == "IODC"
  }

  /** `re.sub('IODC', '____', name)`: every occurrence, left to right, becomes four underscores. */
  function ReplaceIodc(name: string): (r: string)
    ensures |r| == |name|
    ensures forall i :: 0 <= i < |name| ==> r[i] == name[i] || r[i] == '_'
  {
    if |name| < 4 then name
    else if name[..4] == "IODC" then "____" + ReplaceIodc(name[4..])
    else [name[0]] + ReplaceIodc(name[1..])
  }

  /** True when position `i` of `s` lies inside an occurrence of `IODC`. */
  predicate InIodc(s: string, i: int) {
    exists j :: i - 3 <= j <= i && IodcAt(s, j)
  }

  /**
   * The rewrite is exactly `re.sub`'s result: a character becomes `_` when it
   * lies inside an occurrence of `IODC` in the original name and is kept
   * otherwise. Occurrences of `IODC` cannot overlap, so scanning left to right
   * finds every one of them.
   */
  lemma {:induction false} ReplaceIodcIsSub(name: string)
    ensures var r := ReplaceIodc(name);
      forall i :: 0 <= i < |name| ==> r[i] == if InIodc(name, i) then '_' else name[i]
  {
    var r := ReplaceIodc(name);
    if |name| >= 4 {
      var k := if name[..4] == "IODC" then 4 else 1;
      var rest := name[k..];
      ReplaceIodcIsSub(rest);
      assert r[k..] == ReplaceIodc(rest);
      forall i | 0 <= i < |name|
        ensures r[i] == if InIodc(name, i) then '_' else name[i]
      {
        if i < k {
          InIodcAtHead(name, i);
        } else {
          assert r[i] == r[k..][i - k];
          InIodcPastHead(name, i);
        }
      }
    }
  }

  /** Inside the first `k` characters (four for a leading `IODC`, else one) the rewrite is decided by the head alone. */
  lemma InIodcAtHead(name: string, i: nat)
    requires |name| >= 4
    requires i < (if name[..4] == "IODC" then 4 else 1)
    ensures ReplaceIodc(name)[i] == if InIodc(name, i) then '_' else name[i]
  {
    if name[..4] == "IODC" {
      LeadingIodcBlanked(name, i);
    } else {
      var r := ReplaceIodc(name);
      assert r == [name[0]] + ReplaceIodc(name[1..]);
      assert i == 0 && r[0] == name[0];
      assert !IodcAt(name, 0);
    }
  }

  lemma LeadingIodcBlanked(name: string, i: nat)
    requires |name| >= 4 && name[..4] == "IODC" && i < 4
    ensures ReplaceIodc(name)[i] == '_' && InIodc(name, i)
  {
    var r := ReplaceIodc(name);
    var tail := ReplaceIodc(name[4..]);
    assert r == "____" + tail;
    assert r[i] == "____"[i];
    assert IodcAt(name, 0) && i - 3 <= 0 <= i;
  }

  /** Past the head, a position is inside an occurrence exactly when it is inside one of the rest. */
  lemma InIodcPastHead(name: string, i: nat)
    requires |name| >= 4
    requires var k := if name[..4] == "IODC" then 4 else 1; k <= i < |name|
    ensures var k := if name[..4] == "IODC" then 4 else 1;
      InIodc(name, i) <==> InIodc(name[k..], i - k)
  {
    var k := if name[..4] == "IODC" then 4 else 1;
    IodcShift(name, k, i);
    if k == 4 {
      forall j | 1 <= j <= 3
        ensures !IodcAt(name, j)
      {
        assert name[j] == name[..4][j] == "IODC"[j] != 'I';
        assert j + 4 <= |name| ==> name[j..j + 4][0] == name[j];
      }
    } else {
      assert !IodcAt(name, 0);
    }
  }

  /** Occurrences in a suffix are the occurrences of the whole name, shifted. */
  lemma IodcShift(name: string, k: nat, i: int)
    requires k <= |name| && k <= i
    ensures InIodc(name[k..], i - k) <==> exists j :: i - 3 <= j <= i && k <= j && IodcAt(name, j)
  {
    if InIodc(name[k..], i - k) {
      var j :| i - k - 3 <= j <= i - k && IodcAt(name[k..], j);
      assert name[k..][j..j + 4] == name[j + k..j + k + 4];
      assert IodcAt(name, j + k);
    }
    if exists j :: i - 3 <= j <= i && k <= j && IodcAt(name, j) {
      var j :| i - 3 <= j <= i && k <= j && IodcAt(name, j);
      assert name[k..][j - k..j - k + 4] == name[j..j + 4];
      assert IodcAt(name[k..], j - k);
    }
  }

  /** Every character the rewrite changes lies inside an occurrence of `IODC` in the original name. */
  lemma ReplaceIodcChangesOnlyOccurrences(name: string)
    ensures var r := ReplaceIodc(name);
      forall i :: 0 <= i < |name| && r[i] != name[i] ==> exists j :: i - 3 <= j <= i && IodcAt(name, j)
  {
    ReplaceIodcIsSub(name);
  }

  /** No `IODC` is left after the rewrite. */
  lemma {:induction false} ReplaceIodcLeavesNone(name: string)
    ensures forall i :: !IodcAt(ReplaceIodc(name), i)
  {
    var r := ReplaceIodc(name);
    if |name| >= 4 {
      if name[..4] == "IODC" {
        var rest := ReplaceIodc(name[4..]);
        ReplaceIodcLeavesNone(name[4..]);
        forall i ensures !IodcAt(r, i) {
          if 0 <= i && i + 4 <= |r| {
            if i >= 4 {
              assert r[i..i + 4] == rest[i - 4..i];
              assert !IodcAt(rest, i - 4);
            } else {
              assert r[3] == '_';
              assert r[i..i + 4][3 - i] == '_';
            }
          }
        }
      } else {
        var rest := ReplaceIodc(name[1..]);
        ReplaceIodcLeavesNone(name[1..]);
        forall i ensures !IodcAt(r, i) {
          if 0 <= i && i + 4 <= |r| {
            if i >= 1 {
              assert r[i..i + 4] == rest[i - 1..i + 3];
              assert !IodcAt(rest, i - 1);
            } else {
              NoIodcAtStart(name, r);
            }
          }
        }
      }
    }
  }

  /** A name not starting with `IODC` cannot gain one at its start when characters only turn into `_`. */
  lemma NoIodcAtStart(name: string, r: string)
    requires |name| >= 4 && |r| == |name| && name[..4] != "IODC"
    requires forall i :: 0 <= i < |name| ==> r[i] == name[i] || r[i] == '_'
    ensures !IodcAt(r, 0)
  {
  }

  /** A name with no `IODC` is left as it is, so renaming twice is renaming once. */
  lemma {:induction false} ReplaceIodcIdentity(name: string)
    requires forall i :: !IodcAt(name, i)
    ensures ReplaceIodc(name) == name
  {
    if |name| >= 4 {
      assert !IodcAt(name, 0);
      forall i ensures !IodcAt(name[1..], i) {
        if 0 <= i && i + 4 <= |name| - 1 {
          assert name[1..][i..i + 4] == name[i + 1..i + 5];
          assert !IodcAt(name, i + 1);
        }
      }
      ReplaceIodcIdentity(name[1..]);
    }
  }

  lemma ReplaceIodcIdempotent(name: string)
    ensures ReplaceIodc(ReplaceIodc(name)) == ReplaceIodc(name)
  {
    ReplaceIodcLeavesNone(name);
    ReplaceIodcIdentity(ReplaceIodc(name));
  }

  /** The geostationary and the Mercator output names: `datetime_GEO.tif` and `datetime_MERC.tif`. */
  function OutputNames(datetime: string): (r: (string, string))
    ensures |r.0| == |datetime| + 8 && |r.1| == |datetime| + 9
    ensures r.0 != r.1
    ensures r.0[..|datetime|] == datetime && r.1[..|datetime|] == datetime
    ensures r.0[|datetime|..] == "_GEO.tif" && r.1[|datetime|..] == "_MERC.tif"
  {
    var geo := datetime + "_GEO.tif";
    var merc := datetime + "_MERC.tif";
    assert geo[|datetime| + 1] == 'G' && merc[|datetime| + 1] == 'M';
    assert geo[|datetime|..] == "_GEO.tif" && merc[|datetime|..] == "_MERC.tif";
    (geo, merc)
  }

  /** Different datetimes never share an output file: either name gives back the datetime. */
  lemma OutputNamesDetermineDatetime(a: string, b: string)
    ensures OutputNames(a).0 == OutputNames(b).0 ==> a == b
    ensures OutputNames(a).1 == OutputNames(b).1 ==> a == b
    ensures OutputNames(a).0 != OutputNames(b).1
  {
    var (ga, ma) := OutputNames(a);
    var (gb, mb) := OutputNames(b);
    if ga == gb {
      assert a == ga[..|a|] == gb[..|b|] == b;
    }
    if ma == mb {
      assert a == ma[..|a|] == mb[..|b|] == b;
    }
    assert ga[|a| + 3] == ga[|a|..][3] == 'O';
    assert mb[|b| + 4] == mb[|b|..][4] == 'C';
    assert |ga| == |mb| ==> |a| + 3 == |b| + 4;
  }

  /** The gdal_translate command that georeferences the HRIT segments of one datetime. */
  function TranslateArgv(datetime: string, output: string): (r: seq<string>)
    ensures |r| == 14 && r[0] == "gdal_translate" && r[13] == output
    ensures r[12] == "MSG(./," + datetime + ",(4,9,10),N,B,1,1)"
  {
    ["gdal_translate", "-a_srs",
     "+proj=geos +h=35785831 +a=6378169 +b=6356583.8 +lon_0=41.5",
     "-a_ullr", "-5568000", "5568000", "5568000", "-5568000", "-mask", "1", "-of", "GTiff",
     "MSG(./," + datetime + ",(4,9,10),N,B,1,1)", output]
  }

  /** Two datetimes give translate commands that differ only in the source descriptor and the output. */
  lemma TranslateArgvOnlyVaries(d1: string, o1: string, d2: string, o2: string)
    ensures TranslateArgv(d1, o1)[..12] == TranslateArgv(d2, o2)[..12]
  {
  }

  /** The options after the extent that both gdalwarp commands share. */
  const WarpOptions: seq<string> :=
    ["-te_srs", "EPSG:4326", "-t_srs", "EPSG:4326", "-dstalpha", "-r", "lanczos", "-co", "COMPRESS=LZW"]

  /** The gdalwarp command as written: with a box, `-te left bottom right top`; without one, a bare `-te`. */
  function WarpArgv(box: Option<BoundingBox>, input: string, output: string): (r: seq<string>)
    ensures |r| >= 6 && r[0] == "gdalwarp" && r[1] == "-te"
    ensures r[|r| - 2] == input && r[|r| - 1] == output
    ensures box.Some? ==> r[2..6] == [box.value.left, box.value.bottom, box.value.right, box.value.top]
  {
    match box
    case Some(b) => ["gdalwarp", "-te", b.left, b.bottom, b.right, b.top] + WarpOptions + [input, output]
    case None => ["gdalwarp", "-te"] + WarpOptions + [input, output]
  }

  /**
   * Without a box the bare `-te` swallows the next four words, the target
   * reference options, as its xmin ymin xmax ymax.
   */
  lemma WarpArgvWithoutBoxDanglingTe(input: string, output: string)
    ensures var r := WarpArgv(None, input, output);
      r[1] == "-te" && r[2..6] == ["-te_srs", "EPSG:4326", "-t_srs", "EPSG:4326"]
  {
  }

  /** The gdalwarp command with the extent option present exactly when there is a box. */
  function WarpArgvCorrected(box: Option<BoundingBox>, input: string, output: string): (r: seq<string>)
    ensures |r| >= 3 && r[0] == "gdalwarp"
    ensures r[|r| - 2] == input && r[|r| - 1] == output
  {
    match box
    case Some(b) => ["gdalwarp", "-te", b.left, b.bottom, b.right, b.top] + WarpOptions + [input, output]
    case None => ["gdalwarp"] + WarpOptions + [input, output]
  }

  /**
   * The corrected command names `-te` among its options exactly when there is a
   * box, then followed by left bottom right top; with a box it is the command
   * as written.
   */
  lemma WarpArgvCorrectedExtent(box: Option<BoundingBox>, input: string, output: string)
    ensures var r := WarpArgvCorrected(box, input, output);
      ("-te" in r[..|r| - 2] <==> box.Some?)
      && (box.Some? ==> r[1] == "-te" && r[2..6] == [box.value.left, box.value.bottom, box.value.right, box.value.top])
      && (box.Some? ==> r == WarpArgv(box, input, output))
  {
    var r := WarpArgvCorrected(box, input, output);
    if box.None? {
      assert r[..|r| - 2] == ["gdalwarp"] + WarpOptions;
    } else {
      assert r[1] == "-te";
    }
  }

  /**
   * The intended datetime argument: twelve decimal digits, as the usage line's
   * YYYYMMDDhhmm asks.
   */
  predicate DatetimeAcceptedStrict(s: string) {
    DatetimeAccepted(s) && |s| == 12 && AllDigits(s)
  }

  /**
   * The rule as written accepts a minus sign followed by eleven digits
   * without a leading zero ("-20190101120"), and a zero or a plus sign followed by a valid datetime
   * ("0201901011200", "+201901011200"), none of which is a twelve-digit
   * datetime.
   */
  /** With a leading zero after the minus sign the value has only ten digits, and the rule rejects it. */
  lemma DatetimeRejectsNegativeLeadingZero(digits: string)
    requires |digits| == 11 && AllDigits(digits) && digits[0] == '0'
    ensures !DatetimeAccepted("-" + digits)
  {
    Pow10Constants();
    var neg := "-" + digits;
    assert neg[1..] == digits;
    LeadingZero(digits);
    ParseDigitsBound(digits[1..]);
    ParseIntOfNegative(digits);
    DatetimeAcceptedRange(neg);
  }

  lemma DatetimeAcceptsNonDates(digits: string, datetime: string)
    requires |digits| == 11 && AllDigits(digits) && digits[0] != '0'
    requires DatetimeAcceptedStrict(datetime)
    ensures DatetimeAccepted("-" + digits) && !DatetimeAcceptedStrict("-" + digits)
    ensures DatetimeAccepted("0" + datetime) && !DatetimeAcceptedStrict("0" + datetime)
    ensures DatetimeAccepted("+" + datetime) && !DatetimeAcceptedStrict("+" + datetime)
  {
    Pow10Constants();
    var neg := "-" + digits;
    assert neg[1..] == digits;
    LeadingNonZero(digits);
    ParseDigitsBound(digits);
    ParseIntOfNegative(digits);
    DatetimeAcceptedRange(neg);
    var padded := "0" + datetime;
    assert padded[1..] == datetime;
    assert AllDigits(padded);
    LeadingZero(padded);
    ParseIntOfDigits(padded);
    ParseIntOfDigits(datetime);
    DatetimeAcceptedRange(padded);
    DatetimeAcceptedRange(datetime);
    var signed := "+" + datetime;
    ParseIntOfPlus(datetime);
    assert signed[0] == '+';
  }

  /**
   * The strict rule accepts exactly the twelve-digit strings without a leading
   * zero, and its directory parts are then the year, month and day digits.
   */
  lemma DatetimeAcceptedStrictMeaning(s: string)
    ensures DatetimeAcceptedStrict(s) <==> |s| == 12 && AllDigits(s) && s[0] != '0'
    ensures DatetimeAcceptedStrict(s) ==>
      var (y, m, d) := DirectoryParts(s);
      |y| == 4 && |m| == 2 && |d| == 2 && AllDigits(y + m + d)
  {
    if |s| == 12 && AllDigits(s) {
      ParseIntOfDigits(s);
      ParseDigitsBound(s);
      Pow10Constants();
      if s[0] == '0' {
        LeadingZeroBound(s);
      } else {
        LeadingDigitBound(s);
      }
      DatetimeAcceptedRange(s);
      var (y, m, d) := DirectoryParts(s);
      assert y + m + d == s[..8];
    }
  }

  /** Twelve digits starting with a zero are worth less than 10^11. */
  lemma LeadingZeroBound(s: string)
    requires |s| == 12 && AllDigits(s) && s[0] == '0'
    ensures ParseDigits(s) < 100000000000
  {
    LeadingZero(s);
    ParseDigitsBound(s[1..]);
    Pow10Constants();
  }

  /** Twelve digits starting with a non-zero digit are worth at least 10^11. */
  lemma LeadingDigitBound(s: string)
    requires |s| == 12 && AllDigits(s) && s[0] != '0'
    ensures ParseDigits(s) >= 100000000000
  {
    LeadingNonZero(s);
    Pow10Constants();
  }
}
