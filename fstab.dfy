/**
 * The fstab reader of `src/lib.rs`: the entry, device and error types, the
 * device-name classifier, the parsing of one data line into an entry, and
 * the loop that reads every line of the file, skipping blank and comment
 * lines and stopping at the first line that does not parse.
 */
module Fstab {
  import opened Wrappers
  import opened Text
  import opened Numbers

  /** The file read when no path is given. */
  const FSTAB_PATH: string := "/etc/fstab"

  /** The reasons a read can fail. */
  datatype ErrorType =
    | FstabNotExist(description: string)   // the file could not be opened
    | NumParseError(kind: IntErrorKind)    // `dump` or `fsck` is not a `usize`
    | FieldNotExist(index: nat)            // required field number `index` is missing
    | TooManyFields(line: string)          // a token follows `fsck`; carries the trimmed line

  datatype Error = Error(reason: ErrorType)

  /** The first field of an entry, classified by its prefix. */
  datatype Device =
    | Uuid(id: string)
    | Label(name: string)
    | MountPoint(path: string)
    | PartUuid(partId: string)
    | PartLabel(partName: string)

  /** One entry of the table. */
  datatype Fstab = Fstab(
    device: Device,        // fs_spec
    dir: string,           // fs_file
    deviceType: string,    // fs_vfstype
    options: seq<string>,  // fs_mntops, split on ','
    dump: bool,            // fs_freq, non-zero or not
    fsck: nat)             // fs_passno

  // ---------------------------------------------------------------- devices

  predicate HasKnownPrefix(name: string) {
    StartsWith(name, "UUID=") || StartsWith(name, "LABEL=") ||
    StartsWith(name, "PARTUUID=") || StartsWith(name, "PARTLABEL=")
  }

  /**
   * The devices `ParseDevice` can return. Since it drops only five
   * characters of `PARTUUID=` and six of `PARTLABEL=`, the payload of a
   * `PartUuid` still starts with `UID=` and that of a `PartLabel` with
   * `BEL=`; a `MountPoint` never carries a recognised prefix.
   */
  predicate WellFormedDevice(d: Device) {
    match d
    case Uuid(_) => true
    case Label(_) => true
    case PartUuid(p) => StartsWith(p, "UID=")
    case PartLabel(p) => StartsWith(p, "BEL=")
    case MountPoint(p) => !HasKnownPrefix(p)
  }

  /**
   * Classifies a device field by its prefix, first match winning: `UUID=`
   * and `LABEL=` are stripped; `PARTUUID=` and `PARTLABEL=` lose only their
   * first five and six characters; anything else is a mount point, kept
   * unchanged.
   */
  function ParseDevice(name: string): (d: Device)
    ensures StartsWith(name, "UUID=") ==> d == Uuid(name[5..])
    ensures StartsWith(name, "LABEL=") ==> d == Label(name[6..])
    ensures StartsWith(name, "PARTUUID=") ==> d == PartUuid(name[5..])
    ensures StartsWith(name, "PARTLABEL=") ==> d == PartLabel(name[6..])
    ensures !HasKnownPrefix(name) ==> d == MountPoint(name)
    ensures WellFormedDevice(d)
  {
    assert StartsWith(name, "UUID=") ==> name[0] == 'U';
    assert StartsWith(name, "LABEL=") ==> name[0] == 'L';
    assert StartsWith(name, "PARTUUID=") ==> name[0] == 'P';
    assert StartsWith(name, "PARTLABEL=") ==> name[0] == 'P' && name[4] == 'L';
    assert StartsWith(name, "PARTUUID=") ==> name[4] == 'U';
    if StartsWith(name, "UUID=") then Uuid(name[5..])
    else if StartsWith(name, "LABEL=") then Label(name[6..])
    else if StartsWith(name, "PARTUUID=") then PartUuid(name[5..])
    else if StartsWith(name, "PARTLABEL=") then PartLabel(name[6..])
    else MountPoint(name)
  }

  /** The device field a device is read from: the characters `ParseDevice` dropped, then the payload. */
  function DeviceField(d: Device): string {
    match d
    case Uuid(id) => "UUID=" + id
    case Label(name) => "LABEL=" + name
    case PartUuid(p) => "PARTU" + p
    case PartLabel(p) => "PARTLA" + p
    case MountPoint(path) => path
  }

  /** Classification loses nothing: the dropped characters and the payload rebuild the field. */
  lemma DeviceFieldOfParse(name: string)
    ensures DeviceField(ParseDevice(name)) == name
  {
    if StartsWith(name, "UUID=") {
      assert name == name[..5] + name[5..];
    } else if StartsWith(name, "LABEL=") {
      assert name == name[..6] + name[6..];
    } else if StartsWith(name, "PARTUUID=") {
      assert name[..5] == "PARTU";
      assert name == name[..5] + name[5..];
    } else if StartsWith(name, "PARTLABEL=") {
      assert name[..6] == "PARTLA";
      assert name == name[..6] + name[6..];
    }
  }

  /** Classifying the field of a device gives the device back exactly when it is one `ParseDevice` can return. */
  lemma ParseDeviceOfField(d: Device)
    ensures ParseDevice(DeviceField(d)) == d <==> WellFormedDevice(d)
  {
    var f := DeviceField(d);
    match d
    case Uuid(id) =>
      assert f[..5] == "UUID=" && f[5..] == id;
    case Label(name) =>
      assert f[..6] == "LABEL=" && f[6..] == name;
    case PartUuid(p) =>
      if StartsWith(p, "UID=") {
        assert f[..9] == "PARTU" + p[..4];
        assert f[5..] == p;
      }
    case PartLabel(p) =>
      if StartsWith(p, "BEL=") {
        assert f[..10] == "PARTLA" + p[..4];
        assert f[6..] == p;
      }
    case MountPoint(path) =>
  }

  /** As written, the payload of a `PARTUUID=` or `PARTLABEL=` field keeps the tail of the prefix. */
  lemma PartPrefixPayload(id: string)
    ensures ParseDevice("PARTUUID=" + id) == PartUuid("UID=" + id)
    ensures ParseDevice("PARTLABEL=" + id) == PartLabel("BEL=" + id)
  {
    var u := "PARTUUID=" + id;
    var l := "PARTLABEL=" + id;
    assert u[..9] == "PARTUUID=" && u[5..] == "UID=" + id;
    assert l[..10] == "PARTLABEL=" && l[6..] == "BEL=" + id;
  }

  // ---------------------------------------------------------------- one line

  /** The numeric field at `tokens[i]`, or `Ok(0)` when the line ends before it. */
  function OptionalNumber(tokens: seq<string>, i: nat): (r: Result<nat, IntErrorKind>)
    ensures i >= |tokens| ==> r == Ok(0)
    ensures r.Ok? ==> r.value <= USIZE_MAX
    ensures r == Err(Empty) ==> i < |tokens| && tokens[i] == []
  {
    if i < |tokens| then ParseUsize(tokens[i]) else Ok(0)
  }

  /**
   * Builds an entry from the whitespace-separated tokens of a data line,
   * taking them in order: device, dir, type and options are required, each
   * missing one failing with its own index; dump and fsck are optional
   * numbers, checked in that order; a seventh token fails with the line.
   */
  function ParseLine(tokens: seq<string>, line: string): (r: Result<Fstab, Error>)
    ensures |tokens| < 4 <==> r == Err(Error(FieldNotExist(|tokens|)))
    ensures r.Ok? ==> 4 <= |tokens| <= 6
  {
    if |tokens| == 0 then Err(Error(FieldNotExist(0)))
    else if |tokens| == 1 then Err(Error(FieldNotExist(1)))
    else if |tokens| == 2 then Err(Error(FieldNotExist(2)))
    else if |tokens| == 3 then Err(Error(FieldNotExist(3)))
    else
      var dump := OptionalNumber(tokens, 4);
      if dump.Err? then Err(Error(NumParseError(dump.error)))
      else
        var fsck := OptionalNumber(tokens, 5);
        if fsck.Err? then Err(Error(NumParseError(fsck.error)))
        else if |tokens| > 6 then Err(Error(TooManyFields(line)))
        else Ok(Fstab(ParseDevice(tokens[0]), tokens[1], tokens[2], Split(tokens[3], ','), dump.value > 0, fsck.value))
  }

  /**
   * What `ParseLine` promises: fewer than four tokens fail with the index of
   * the first missing one; an entry comes only from four to six tokens and
   * holds the device, dir, type and options read from the first four; a
   * missing dump is `false` and a missing fsck `0`; a present one is the
   * number parsed, dump reduced to `> 0`; a bad dump, then a bad fsck, is
   * reported before a seventh token.
   */
  lemma ParseLineMeaning(tokens: seq<string>, line: string)
    ensures var r := ParseLine(tokens, line);
      (|tokens| < 4 ==> r == Err(Error(FieldNotExist(|tokens|)))) &&
      (r.Ok? ==> 4 <= |tokens| <= 6 && r.value.fsck <= USIZE_MAX) &&
      (r.Ok? ==> r.value.device == ParseDevice(tokens[0]) && r.value.dir == tokens[1] &&
                 r.value.deviceType == tokens[2] && r.value.options == Split(tokens[3], ','))
    ensures var r := ParseLine(tokens, line);
      (|tokens| == 4 ==> r.Ok? && !r.value.dump && r.value.fsck == 0) &&
      (r.Ok? && |tokens| >= 5 ==> ParseUsize(tokens[4]).Ok? && r.value.dump == (ParseUsize(tokens[4]).value > 0)) &&
      (r.Ok? && |tokens| == 6 ==> ParseUsize(tokens[5]) == Ok(r.value.fsck))
    ensures var r := ParseLine(tokens, line);
      (|tokens| >= 5 && ParseUsize(tokens[4]).Err? ==>
         r == Err(Error(NumParseError(ParseUsize(tokens[4]).error)))) &&
      (|tokens| >= 6 && ParseUsize(tokens[4]).Ok? && ParseUsize(tokens[5]).Err? ==>
         r == Err(Error(NumParseError(ParseUsize(tokens[5]).error)))) &&
      (|tokens| >= 7 && ParseUsize(tokens[4]).Ok? && ParseUsize(tokens[5]).Ok? ==>
         r == Err(Error(TooManyFields(line))))
    ensures var r := ParseLine(tokens, line);
      (r.Ok? <==> 4 <= |tokens| <= 6 && OptionalNumber(tokens, 4).Ok? && OptionalNumber(tokens, 5).Ok?) &&
      (r.Ok? ==> r.value.dump == (OptionalNumber(tokens, 4).value > 0) && r.value.fsck == OptionalNumber(tokens, 5).value)
  {
  }

  /** A trimmed line the reader passes over: blank, or a comment starting with `#`. */
  predicate IsSkipped(l: string)
    ensures !IsSkipped(l) ==> l != [] && l[0] != '#'
  {
    StartsWith(l, "#") || |l| == 0
  }

  /** What the reader does with one trimmed data line. */
  function ParseDataLine(l: string): (r: Result<Fstab, Error>)
    ensures r.Ok? ==> 4 <= |SplitWhitespace(l)| <= 6
  {
    ParseLine(SplitWhitespace(l), l)
  }

  // ---------------------------------------------------------------- the file

  /**
   * The data lines of a file, trimmed, in order: lines that could not be
   * read (`None`), blank lines and comment lines are dropped.
   */
  function DataLines(lines: seq<Option<string>>): (data: seq<string>)
    ensures |data| <= |lines|
  {
    if lines == [] then []
    else
      var rest := DataLines(lines[1..]);
      match lines[0]
      case None => rest
      case Some(raw) =>
        var l := Trim(raw);
        if IsSkipped(l) then rest
        else [l] + rest
  }

  /** A line the reader parses: trimmed, non-blank and not a comment. */
  predicate IsDataLine(l: string) {
    l != [] && !IsSkipped(l) && !IsSpace(l[0]) && !IsSpace(l[|l| - 1])
  }

  predicate AllDataLines(data: seq<string>) {
    forall k :: 0 <= k < |data| ==> IsDataLine(data[k])
  }

  lemma AllDataLinesCons(l: string, rest: seq<string>)
    requires IsDataLine(l) && AllDataLines(rest)
    ensures AllDataLines([l] + rest)
  {
    forall k | 0 <= k < |[l] + rest| ensures IsDataLine(([l] + rest)[k]) {
      if k > 0 {
        assert ([l] + rest)[k] == rest[k - 1];
      }
    }
  }

  lemma TrimmedIsData(raw: string)
    requires !IsSkipped(Trim(raw))
    ensures IsDataLine(Trim(raw))
  {
  }

  /** Every data line is non-blank, not a comment, and trimmed; there are no more of them than lines. */
  lemma {:induction false} DataLinesAreData(lines: seq<Option<string>>)
    ensures |DataLines(lines)| <= |lines|
    ensures AllDataLines(DataLines(lines))
  {
    if lines != [] {
      DataLinesAreData(lines[1..]);
      var rest := DataLines(lines[1..]);
      if lines[0].Some? && !IsSkipped(Trim(lines[0].value)) {
        var l := Trim(lines[0].value);
        assert DataLines(lines) == [l] + rest;
        TrimmedIsData(lines[0].value);
        AllDataLinesCons(l, rest);
      } else {
        assert DataLines(lines) == rest;
      }
    }
  }

  lemma {:induction false} DataLinesAppend(a: seq<Option<string>>, b: seq<Option<string>>)
    ensures DataLines(a + b) == DataLines(a) + DataLines(b)
  {
    if a == [] {
      assert a + b == b;
    } else {
      assert (a + b)[1..] == a[1..] + b;
      DataLinesAppend(a[1..], b);
    }
  }

  /** The entries of a run of data lines, each parsed with `parse`, or the error of the first that fails. */
  function Collect(data: seq<string>, parse: string -> Result<Fstab, Error>): (r: Result<seq<Fstab>, Error>)
    ensures r.Ok? ==> |r.value| == |data|
  {
    if data == [] then Ok([])
    else
      match parse(data[0])
      case Err(e) => Err(e)
      case Ok(entry) =>
        match Collect(data[1..], parse)
        case Err(e) => Err(e)
        case Ok(entries) => Ok([entry] + entries)
  }

  /**
   * A run of data lines parses exactly when every line does, and then gives
   * one entry per line, in order; otherwise its error is that of the first
   * line that fails.
   */
  lemma {:induction false} CollectMeaning(data: seq<string>, parse: string -> Result<Fstab, Error>)
    ensures Collect(data, parse).Ok? <==> forall k :: 0 <= k < |data| ==> parse(data[k]).Ok?
    ensures Collect(data, parse).Ok? ==> var entries := Collect(data, parse).value;
      |entries| == |data| && forall k :: 0 <= k < |data| ==> parse(data[k]) == Ok(entries[k])
    ensures Collect(data, parse).Err? ==>
      exists k :: 0 <= k < |data| && parse(data[k]) == Err(Collect(data, parse).error) &&
        (forall j :: 0 <= j < k ==> parse(data[j]).Ok?)
  {
    if data != [] {
      CollectMeaning(data[1..], parse);
      assert forall k :: 1 <= k < |data| ==> data[k] == data[1..][k - 1];
      var r := Collect(data, parse);
      if parse(data[0]).Ok? && r.Err? {
        var k :| 0 <= k < |data[1..]| && parse(data[1..][k]) == Err(r.error) &&
                 forall j :: 0 <= j < k ==> parse(data[1..][j]).Ok?;
        assert parse(data[k + 1]) == Err(r.error);
        assert forall j :: 0 <= j < k + 1 ==> parse(data[j]).Ok?;
      }
    }
  }

  /** Collecting two runs of data lines one after the other. */
  lemma {:induction false} CollectAppend(a: seq<string>, b: seq<string>, parse: string -> Result<Fstab, Error>)
    ensures Collect(a + b, parse) ==
      match Collect(a, parse)
      case Err(e) => Err(e)
      case Ok(x) => (match Collect(b, parse) case Err(e) => Err(e) case Ok(y) => Ok(x + y))
  {
    if a == [] {
      assert a + b == b;
      if Collect(b, parse).Ok? {
        assert [] + Collect(b, parse).value == Collect(b, parse).value;
      }
    } else {
      assert (a + b)[0] == a[0];
      assert (a + b)[1..] == a[1..] + b;
      CollectAppend(a[1..], b, parse);
      if Collect(a, parse).Ok? && Collect(b, parse).Ok? {
        var x, y := Collect(a, parse).value, Collect(b, parse).value;
        assert [x[0]] + (Collect(a[1..], parse).value + y) == x + y;
      }
    }
  }

  /** The result of reading a file whose data lines are `data`. */
  function ParseAll(data: seq<string>): (r: Result<seq<Fstab>, Error>)
    ensures r.Ok? ==> |r.value| == |data|
  {
    Collect(data, ParseDataLine)
  }

  /** What one more line adds to the data lines. */
  lemma DataLinesSnoc(prefix: seq<Option<string>>, x: Option<string>)
    ensures DataLines(prefix + [x]) ==
      if x.None? || IsSkipped(Trim(x.value)) then DataLines(prefix) else DataLines(prefix) + [Trim(x.value)]
  {
    DataLinesAppend(prefix, [x]);
    SkippedLineIsNotData(x);
  }

  /** Parsing one more data line after a run that parsed. */
  lemma CollectSnoc(data: seq<string>, items: seq<Fstab>, l: string, parse: string -> Result<Fstab, Error>)
    requires Collect(data, parse) == Ok(items)
    ensures Collect(data + [l], parse) == match parse(l) case Ok(e) => Ok(items + [e]) case Err(e) => Err(e)
  {
    CollectAppend(data, [l], parse);
    CollectOne(l, parse);
  }

  lemma CollectOne(l: string, parse: string -> Result<Fstab, Error>)
    ensures Collect([l], parse) == match parse(l) case Ok(e) => Ok([e]) case Err(e) => Err(e)
  {
    assert [l][0] == l && [l][1..] == [];
    if parse(l).Ok? {
      assert [parse(l).value] + [] == [parse(l).value];
    }
  }

  /** Once a data line has failed, the lines after it do not matter. */
  lemma CollectStops(data: seq<string>, rest: seq<string>, parse: string -> Result<Fstab, Error>)
    requires Collect(data, parse).Err?
    ensures Collect(data + rest, parse) == Collect(data, parse)
  {
    CollectAppend(data, rest, parse);
  }

  lemma PrefixSnoc<T>(s: seq<T>, i: nat)
    requires i < |s|
    ensures s[..i + 1] == s[..i] + [s[i]]
    ensures s[..i + 1] + s[i + 1..] == s
  {
  }

  /** A line that is unreadable, blank or a comment leaves the result so far as it was. */
  lemma ReadSkipped(lines: seq<Option<string>>, i: nat)
    requires i < |lines|
    requires lines[i].None? || IsSkipped(Trim(lines[i].value))
    ensures DataLines(lines[..i + 1]) == DataLines(lines[..i])
  {
    PrefixSnoc(lines, i);
    DataLinesSnoc(lines[..i], lines[i]);
  }

  /** A data line joins the data lines read so far. */
  lemma ReadData(lines: seq<Option<string>>, i: nat)
    requires i < |lines|
    requires lines[i].Some? && !IsSkipped(Trim(lines[i].value))
    ensures DataLines(lines[..i + 1]) == DataLines(lines[..i]) + [Trim(lines[i].value)]
  {
    PrefixSnoc(lines, i);
    DataLinesSnoc(lines[..i], lines[i]);
  }

  /** Once the lines up to `i` fail, the whole file fails the same way. */
  lemma ReadFails(lines: seq<Option<string>>, i: nat, parse: string -> Result<Fstab, Error>)
    requires i < |lines|
    requires Collect(DataLines(lines[..i + 1]), parse).Err?
    ensures Collect(DataLines(lines), parse) == Collect(DataLines(lines[..i + 1]), parse)
  {
    PrefixSnoc(lines, i);
    DataLinesAppend(lines[..i + 1], lines[i + 1..]);
    CollectStops(DataLines(lines[..i + 1]), DataLines(lines[i + 1..]), parse);
  }

  /**
   * The loop of `open_fstab` over the lines of an opened file: every line
   * that was read is trimmed; blank and comment lines are skipped; each
   * data line is parsed and its entry appended, and the first line that
   * fails ends the read with its error and no entries.
   */
  method ReadFstab(lines: seq<Option<string>>) returns (r: Result<seq<Fstab>, Error>)
    ensures r == ParseAll(DataLines(lines))
  {
    var items: seq<Fstab> := [];
    for i := 0 to |lines|
      invariant ParseAll(DataLines(lines[..i])) == Ok(items)
    {
      if lines[i].Some? {
        var l := Trim(lines[i].value);
        if IsSkipped(l) {
          ReadSkipped(lines, i);
          continue;
        }
        var tokens := SplitWhitespace(l);
        var entry := ParseLine(tokens, l);
        ReadData(lines, i);
        CollectSnoc(DataLines(lines[..i]), items, l, ParseDataLine);
        if entry.Err? {
          ReadFails(lines, i, ParseDataLine);
          return Err(entry.error);
        }
        items := items + [entry.value];
      } else {
        ReadSkipped(lines, i);
      }
    }
    assert lines[..|lines|] == lines;
    r := Ok(items);
  }

  /** What opening a path gives: the lines of the file (`None` for a line that could not be read) or the reason it failed. */
  datatype OpenOutcome = Opened(lines: seq<Option<string>>) | OpenFailed(description: string)

  /**
   * `open_fstab`: opens `path`, or `/etc/fstab` when none is given, through
   * `open`, and reads the table from it. A file that cannot be opened gives
   * `FstabNotExist` with the reason.
   */
  method OpenFstab(path: Option<string>, open: string -> OpenOutcome) returns (r: Result<seq<Fstab>, Error>)
    ensures var file := open(if path.Some? then path.value else FSTAB_PATH);
      (file.OpenFailed? ==> r == Err(Error(FstabNotExist(file.description)))) &&
      (file.Opened? ==> r == ParseAll(DataLines(file.lines)))
  {
    var file := open(match path case Some(p) => p case None => FSTAB_PATH);
    if file.OpenFailed? {
      return Err(Error(FstabNotExist(file.description)));
    }
    r := ReadFstab(file.lines);
  }

  // ---------------------------------------------------------------- properties

  /** A blank line, a comment line or a line that could not be read holds no data. */
  lemma SkippedLineIsNotData(x: Option<string>)
    ensures DataLines([x]) == [] <==> x.None? || IsSkipped(Trim(x.value))
  {
  }

  /** Such a line changes nothing, wherever it stands: it adds no entry and causes no error. */
  lemma SkippedLineChangesNothing(a: seq<Option<string>>, x: Option<string>, b: seq<Option<string>>)
    requires x.None? || IsSkipped(Trim(x.value))
    ensures DataLines(a + [x] + b) == DataLines(a + b)
  {
    SkippedLineIsNotData(x);
    DataLinesAppend(a + [x], b);
    DataLinesAppend(a, [x]);
    DataLinesAppend(a, b);
  }

  /** A data line always has a first token, so a read never fails with `FieldNotExist(0)`. */
  lemma NeverFieldZeroMissing(lines: seq<Option<string>>)
    ensures ParseAll(DataLines(lines)) != Err(Error(FieldNotExist(0)))
  {
    var data := DataLines(lines);
    DataLinesAreData(lines);
    CollectMeaning(data, ParseDataLine);
    if Collect(data, ParseDataLine).Err? {
      var k :| 0 <= k < |data| && ParseDataLine(data[k]) == Err(Collect(data, ParseDataLine).error) &&
               (forall j :: 0 <= j < k ==> ParseDataLine(data[j]).Ok?);
      DataLineHasDevice(data[k]);
    }
  }

  /** A trimmed, non-empty line has a first field. */
  lemma DataLineHasDevice(l: string)
    requires l != [] && !IsSpace(l[0])
    ensures ParseDataLine(l) != Err(Error(FieldNotExist(0)))
  {
    HasFirstToken(l);
  }

  lemma HasFirstToken(l: string)
    requires l != [] && !IsSpace(l[0])
    ensures SplitWhitespace(l) != []
  {
    assert SplitWhitespace(l) == [Word(l)] + SplitWhitespace(l[|Word(l)|..]);
  }

  /** A field as it appears on a line: non-empty and free of whitespace. */
  predicate IsToken(s: string) {
    s != [] && NoSpace(s)
  }

  /** Six tokens written with single spaces form one data line that tokenizes back to them. */
  lemma {:induction false} TokensLine(tokens: seq<string>)
    requires |tokens| == 6 && forall k :: 0 <= k < 6 ==> IsToken(tokens[k])
    requires !StartsWith(tokens[0], "#")
    ensures var line := JoinWith(tokens, ' ');
      DataLines([Some(line)]) == [line] && SplitWhitespace(line) == tokens
  {
    var line := JoinWith(tokens, ' ');
    SplitWhitespaceJoin(tokens);
    JoinWithEnds(tokens, ' ');
    TrimOfTrimmed(line);
    assert DataLines([Some(line)]) == [line] + DataLines([]);
  }

  /** The six fields of an entry, as they are written on a line. */
  function EntryTokens(device: Device, dir: string, deviceType: string, options: seq<string>, dump: nat, fsck: nat): seq<string> {
    [DeviceField(device), dir, deviceType, JoinWith(options, ','), ShowNat(dump), ShowNat(fsck)]
  }

  /** The line that writes an entry's fields, with `dump` and `fsck` as decimal numbers, separated by single spaces. */
  function EntryLine(device: Device, dir: string, deviceType: string, options: seq<string>, dump: nat, fsck: nat): string {
    JoinWith(EntryTokens(device, dir, deviceType, options, dump, fsck), ' ')
  }

  /**
   * Writing an entry's six fields on one line and reading it back gives the
   * entry: the line is a data line, the device is classified back, the
   * options split back, and `dump` becomes `dump > 0`. A device field
   * starting with `#` would make the line a comment instead.
   */
  lemma ParseLineRoundTrip(device: Device, dir: string, deviceType: string, options: seq<string>, dump: nat, fsck: nat)
    requires WellFormedDevice(device) && IsToken(DeviceField(device)) && DeviceField(device)[0] != '#'
    requires IsToken(dir) && IsToken(deviceType)
    requires |options| >= 1 && forall k :: 0 <= k < |options| ==> NoSpace(options[k]) && ',' !in options[k]
    requires JoinWith(options, ',') != []
    requires dump <= USIZE_MAX && fsck <= USIZE_MAX
    ensures var line := EntryLine(device, dir, deviceType, options, dump, fsck);
      DataLines([Some(line)]) == [line] &&
      ParseDataLine(line) == Ok(Fstab(device, dir, deviceType, options, dump > 0, fsck))
  {
    var tokens := EntryTokens(device, dir, deviceType, options, dump, fsck);
    JoinWithNoSpace(options, ',');
    DigitsHaveNoSpace(ShowNat(dump));
    DigitsHaveNoSpace(ShowNat(fsck));
    assert IsToken(tokens[0]) && IsToken(tokens[1]) && IsToken(tokens[2]);
    assert IsToken(tokens[3]) && IsToken(tokens[4]) && IsToken(tokens[5]);
    forall k | 0 <= k < 6 ensures IsToken(tokens[k]) {
      assert k == 0 || k == 1 || k == 2 || k == 3 || k == 4 || k == 5;
    }
    assert !StartsWith(tokens[0], "#");
    TokensLine(tokens);
    var line := JoinWith(tokens, ' ');
    EntryFields(device, dir, deviceType, options, dump, fsck, line);
  }

  /** The six written fields of an entry give the entry back. */
  lemma EntryFields(device: Device, dir: string, deviceType: string, options: seq<string>, dump: nat, fsck: nat, line: string)
    requires WellFormedDevice(device)
    requires |options| >= 1 && forall k :: 0 <= k < |options| ==> ',' !in options[k]
    requires dump <= USIZE_MAX && fsck <= USIZE_MAX
    ensures ParseLine(EntryTokens(device, dir, deviceType, options, dump, fsck), line) ==
      Ok(Fstab(device, dir, deviceType, options, dump > 0, fsck))
  {
    ParseDeviceOfField(device);
    SplitJoin(options, ',');
    ParseShowNat(dump);
    ParseShowNat(fsck);
  }

  lemma DigitsHaveNoSpace(s: string)
    requires AllDigits(s)
    ensures NoSpace(s)
  {
    assert forall k :: 0 <= k < |s| ==> IsDigit(s[k]);
  }
}
