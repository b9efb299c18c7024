/**
 Binlog coordinates: file names and their sequence numbers, the no-clobber guard that orders
 them, and the `file:position` text (deploy/cdc-stack/lambda/seeder.py,
 src/dsql_migrator/core/cdc_kafka_prep.py, src/dsql_migrator/core/cdc_coords.py).
 */
module Binlog {
  import opened Wrappers
  import opened Text
  import opened Sorting

  // The number after the last dot, when it is one.
  function BinlogSeq(file: string): Option<nat> {
    match RPartition(file, '.')
    case None => None
    case Some((_, suffix)) => if DigitText(suffix) then Some(TextNat(suffix)) else None
  }

  // A connector offset: where it stands, and its other fields.
  datatype Value = Num(n: int) | Str(s: string) | Flag(b: bool)

  datatype Offset = Offset(file: Option<string>, pos: Option<int>, fields: map<string, Value>)

  predicate HasCoordinate(o: Offset) {
    o.file.Some? && o.file.value != "" && o.pos.Some?
  }

  // Whether the live offset is already at or past the watermark.
  predicate AtOrPast(existing: Option<Offset>, file: string, pos: int) {
    if existing.None? || !HasCoordinate(existing.value) then false
    else
      var curFile, curPos := existing.value.file.value, existing.value.pos.value;
      if curFile != file then
        match (BinlogSeq(curFile), BinlogSeq(file))
        case (Some(cur), Some(wm)) => cur > wm
        case _ => !StringLe(curFile, file)
      else curPos >= pos
  }

  // ---- canonical names ----

  // MySQL numbers its files with at least six digits; the suffix widens after 999999.
  function Suffix(n: nat): (s: string)
    ensures DigitText(s) && |s| >= 6
  {
    var digits := NatText(n);
    if |digits| < 6 then Zeros(6 - |digits|) + digits else digits
  }

  function BinlogName(basename: string, n: nat): string {
    basename + "." + Suffix(n)
  }

  lemma BinlogSeqOfName(basename: string, n: nat)
    ensures BinlogSeq(BinlogName(basename, n)) == Some(n)
  {
    hide NatText;
    RPartitionOfJoined(basename, '.', Suffix(n));
    TextNatOfNatText(n);
    if |NatText(n)| < 6 { LeadingZeros(6 - |NatText(n)|, NatText(n)); }
  }

  // The number is that of the digits after the last dot, and there is none for any other name.
  lemma {:induction false} BinlogSeqExactly(base: string, suffix: string)
    requires '.' !in suffix
    ensures BinlogSeq(base + "." + suffix) == if DigitText(suffix) then Some(TextNat(suffix)) else None
    ensures BinlogSeq(suffix) == None
  {
    RPartitionOfJoined(base, '.', suffix);
  }

  // (sequence, position), lexicographically.
  datatype Coordinate = Coordinate(seqNo: nat, pos: nat)

  predicate Le(a: Coordinate, b: Coordinate) {
    a.seqNo < b.seqNo || (a.seqNo == b.seqNo && a.pos <= b.pos)
  }

  predicate Lt(a: Coordinate, b: Coordinate) {
    Le(a, b) && a != b
  }

  // An offset of a connector on the source whose binlog files are named after `basename`.
  predicate StandsAt(o: Offset, basename: string, c: Coordinate) {
    o.file == Some(BinlogName(basename, c.seqNo)) && o.pos == Some(c.pos)
  }

  // On the files of one source the guard is the order of coordinates, across every rollover.
  lemma GuardIsCoordinateOrder(o: Offset, basename: string, cur: Coordinate, wm: Coordinate)
    requires StandsAt(o, basename, cur)
    ensures AtOrPast(Some(o), BinlogName(basename, wm.seqNo), wm.pos) <==> Le(wm, cur)
  {
    BinlogSeqOfName(basename, cur.seqNo);
    BinlogSeqOfName(basename, wm.seqNo);
    hide BinlogSeq, Suffix;
    assert BinlogName(basename, cur.seqNo) != "";
  }

  // Comparing the names as text would invert at the rollover from 999999 to 1000000.
  lemma TextOrderInvertsAtRollover(basename: string)
    ensures StringLe(BinlogName(basename, 1000000), BinlogName(basename, 999999))
    ensures BinlogName(basename, 1000000) != BinlogName(basename, 999999)
    ensures forall o, p: nat, q: nat :: StandsAt(o, basename, Coordinate(1000000, p)) ==>
              AtOrPast(Some(o), BinlogName(basename, 999999), q)
  {
    RolloverNames(basename);
    BinlogSeqOfName(basename, 1000000);
    BinlogSeqOfName(basename, 999999);
    hide *;
    forall o, p: nat, q: nat | StandsAt(o, basename, Coordinate(1000000, p))
      ensures AtOrPast(Some(o), BinlogName(basename, 999999), q)
    {
      GuardIsCoordinateOrder(o, basename, Coordinate(1000000, p), Coordinate(999999, q));
    }
  }

  lemma RolloverNames(basename: string)
    ensures StringLe(BinlogName(basename, 1000000), BinlogName(basename, 999999))
  {
    RolloverText();
    assert BinlogName(basename, 1000000) == basename + ("." + Suffix(1000000));
    assert BinlogName(basename, 999999) == basename + ("." + Suffix(999999));
    hide *;
    CommonPrefix(basename, "." + Suffix(1000000), "." + Suffix(999999));
  }

  lemma RolloverText()
    ensures StringLe("." + Suffix(1000000), "." + Suffix(999999))
  {
    assert NatText(10) == "10" && NatText(99) == "99";
    assert NatText(1000) == NatText(10) + "0" + "0";
    assert NatText(100000) == NatText(1000) + "0" + "0";
    assert NatText(1000000) == "1000000";
    assert NatText(9999) == NatText(99) + "9" + "9";
    assert NatText(999999) == "999999";
    assert ("." + "1000000")[1..] == "1000000" && ("." + "999999")[1..] == "999999";
  }

  lemma {:induction false} CommonPrefix(p: string, a: string, b: string)
    requires StringLe(a, b)
    ensures StringLe(p + a, p + b)
  {
    hide *;
    if p == [] {
      assert p + a == a && p + b == b;
    } else {
      var c, q := p[0], p[1..];
      CommonPrefix(q, a, b);
      CommonFirst(c, q + a, q + b);
      Reassociated(c, q, a);
      Reassociated(c, q, b);
      assert p == [c] + q;
    }
  }

  lemma Reassociated(c: char, q: string, a: string)
    ensures [c] + (q + a) == [c] + q + a
  {
  }

  lemma {:induction false} CommonFirst(c: char, a: string, b: string)
    requires StringLe(a, b)
    ensures StringLe([c] + a, [c] + b)
  {
    assert ([c] + a)[1..] == a && ([c] + b)[1..] == b;
  }

  // The guard orders two numbered offsets, one way or the other, exactly when they are in the
  // same file or their sequence numbers differ: different files with one number compare as
  // "not past" both ways.
  lemma GuardIsTotalExactly(a: Offset, b: Offset)
    requires HasCoordinate(a) && HasCoordinate(b)
    requires BinlogSeq(a.file.value).Some? && BinlogSeq(b.file.value).Some?
    ensures AtOrPast(Some(a), b.file.value, b.pos.value) || AtOrPast(Some(b), a.file.value, a.pos.value)
       <==> a.file == b.file || BinlogSeq(a.file.value) != BinlogSeq(b.file.value)
  {
    hide BinlogSeq;
  }

  // Without a coordinate an offset is never at or past; in the watermark's own file the
  // position decides, and against a name without a number the text order of the names.
  lemma {:induction false} GuardWithoutNumbers(o: Offset, file: string, pos: int)
    ensures !AtOrPast(None, file, pos)
    ensures o.file.None? || o.file == Some("") || o.pos.None? ==> !AtOrPast(Some(o), file, pos)
    ensures o.file == Some(file) && file != "" && o.pos.Some? ==> (AtOrPast(Some(o), file, pos) <==> o.pos.value >= pos)
    ensures HasCoordinate(o) && o.file.value != file && (BinlogSeq(o.file.value).None? || BinlogSeq(file).None?) ==>
              (AtOrPast(Some(o), file, pos) <==> StringLe(file, o.file.value))
  {
    hide BinlogSeq, StringLe;
    StringLeIsOrder();
  }

  // ---- file:position ----

  // ^\S+\.\d+$ of the trimmed text
  predicate ValidBinlogFile(value: string) {
    match RPartition(Strip(value), '.')
    case None => false
    case Some((name, suffix)) => name != "" && (forall c | c in name :: !IsSpace(c)) && DigitText(suffix)
  }

  function ParseBinlogCoordinate(value: string): Option<(string, nat)> {
    match RPartition(Strip(value), ':')
    case None => None
    case Some((filePart, posPart)) =>
      var file, pos := Strip(filePart), Strip(posPart);
      if !ValidBinlogFile(file) || !DigitText(pos) then None else Some((file, TextNat(pos)))
  }

  lemma {:induction false} StripLeftIsTrimmedLeft(s: string)
    ensures var r := StripLeft(s); (r != [] ==> !IsSpace(r[0])) && (r == [] ==> forall c | c in s :: IsSpace(c))
  {
    if s != [] && IsSpace(s[0]) {
      StripLeftIsTrimmedLeft(s[1..]);
      assert s == [s[0]] + s[1..];
    }
  }

  lemma {:induction false} StripRightKeeps(s: string)
    requires s != [] ==> !IsSpace(s[0])
    ensures Trimmed(StripRight(s)) && StripRight(s) <= s
  {
    if s != [] && IsSpace(s[|s| - 1]) {
      StripRightKeeps(s[..|s| - 1]);
    }
  }

  lemma StripIsTrimmed(s: string)
    ensures Trimmed(Strip(s))
  {
    StripLeftIsTrimmedLeft(s);
    StripRightKeeps(StripLeft(s));
  }

  lemma ValidFileText(file: string)
    requires Trimmed(file) && ValidBinlogFile(file)
    ensures file != "" && !IsSpace(file[0]) && !IsSpace(file[|file| - 1]) && BinlogSeq(file).Some?
  {
    StripTrimmed(file);
    hide RPartition, Strip;
    var (name, suffix) := RPartition(file, '.').value;
    assert file == name + "." + suffix;
  }

  // A printed coordinate parses back, for every valid file name and position.
  lemma {:induction false} CoordinateParsesBack(file: string, pos: nat)
    requires Trimmed(file) && ValidBinlogFile(file)
    ensures ParseBinlogCoordinate(file + ":" + NatText(pos)) == Some((file, pos))
  {
    var text, digits := file + ":" + NatText(pos), NatText(pos);
    ValidFileText(file);
    hide NatText, ValidBinlogFile, BinlogSeq;
    assert ':' !in digits;
    assert forall c | IsDigit(c) :: !IsSpace(c);
    assert digits[0] in digits && digits[|digits| - 1] in digits;
    assert text[0] == file[0] && text[|text| - 1] == digits[|digits| - 1];
    StripTrimmed(text);
    StripTrimmed(file);
    StripTrimmed(digits);
    RPartitionOfJoined(file, ':', digits);
    TextNatOfNatText(pos);
  }

  // Whatever parses names a valid, numbered file, and parses to the same when printed again.
  lemma ParsedCoordinateIsValid(value: string)
    requires ParseBinlogCoordinate(value).Some?
    ensures var (file, pos) := ParseBinlogCoordinate(value).value;
            && ValidBinlogFile(file) && BinlogSeq(file).Some?
            && ParseBinlogCoordinate(file + ":" + NatText(pos)) == Some((file, pos))
  {
    var (file, pos) := ParseBinlogCoordinate(value).value;
    var (filePart, _) := RPartition(Strip(value), ':').value;
    StripIsTrimmed(filePart);
    hide Strip, RPartition, NatText;
    ValidFileText(file);
    CoordinateParsesBack(file, pos);
  }

  // A trimmed text parses exactly when it has a last colon with a valid file before it and
  // digits after it, white space around either aside.
  lemma CoordinateParsesExactly(filePart: string, posPart: string)
    requires ':' !in posPart && Trimmed(filePart + ":" + posPart)
    ensures ParseBinlogCoordinate(filePart + ":" + posPart)
         == if ValidBinlogFile(Strip(filePart)) && DigitText(Strip(posPart)) then Some((Strip(filePart), TextNat(Strip(posPart)))) else None
    ensures ParseBinlogCoordinate(Strip(posPart)) == None
  {
    hide ValidBinlogFile;
    StripTrimmed(filePart + ":" + posPart);
    RPartitionOfJoined(filePart, ':', posPart);
    NoColon(posPart);
  }

  lemma NoColon(text: string)
    requires ':' !in text
    ensures ':' !in Strip(Strip(text))
  {
    StripKeepsWithin(text);
    StripKeepsWithin(Strip(text));
  }

  lemma StripKeepsWithin(text: string)
    ensures forall c | c in Strip(text) :: c in text
  {
    StripLeftWithin(text);
    StripRightWithin(StripLeft(text));
  }

  lemma {:induction false} StripLeftWithin(text: string)
    ensures forall c | c in StripLeft(text) :: c in text
  {
    if text != [] && IsSpace(text[0]) {
      StripLeftWithin(text[1..]);
    }
  }

  lemma {:induction false} StripRightWithin(text: string)
    ensures forall c | c in StripRight(text) :: c in text
  {
    if text != [] && IsSpace(text[|text| - 1]) {
      StripRightWithin(text[..|text| - 1]);
    }
  }

  // A file name is a name without white space, a dot and a number.
  lemma ValidBinlogFileExactly(name: string, suffix: string)
    requires Trimmed(name + "." + suffix) && '.' !in suffix
    ensures ValidBinlogFile(name + "." + suffix) <==> name != "" && (forall c | c in name :: !IsSpace(c)) && DigitText(suffix)
    ensures Trimmed(suffix) ==> !ValidBinlogFile(suffix)
  {
    StripTrimmed(name + "." + suffix);
    RPartitionOfJoined(name, '.', suffix);
    if Trimmed(suffix) { StripTrimmed(suffix); }
  }
}
