/** The strings BackupUtil builds from its inputs: the target path with a
    leading ~ expanded to the home directory, and the snapshot name
    <db>-YYMMDD-HHmmss formatted from the local time of the backup. */
module Naming {
  import opened Calendar

  // ---- ~ expansion ------------------------------------------------------------

  /** The path starts with a ~ that is followed by the end of the string or by
      a slash: the only ~ the pattern /^~(?=$|\/)/ matches. */
  predicate LeadingTilde(s: string) {
    |s| > 0 && s[0] == '~' && (|s| == 1 || s[1] == '/')
  }

  /** replace(/^~(?=$|\/)/g, home): the matched ~ becomes the home directory;
      any other string is returned unchanged. */
  function ExpandTilde(s: string, home: string): (r: string)
    ensures LeadingTilde(s) ==> r == home + s[1..]
    ensures !LeadingTilde(s) ==> r == s
  {
    if LeadingTilde(s) then home + s[1..] else s
  }

  /** A ~ that starts a user name (~user) or that is not the first character
      is left alone, and expansion keeps everything after the ~. */
  lemma ExpandTildeCases(s: string, home: string)
    ensures |s| > 1 && s[0] == '~' && s[1] != '/' ==> ExpandTilde(s, home) == s
    ensures |s| > 0 && s[0] != '~' ==> ExpandTilde(s, home) == s
    ensures s == "~" ==> ExpandTilde(s, home) == home
    ensures LeadingTilde(s) ==> |ExpandTilde(s, home)| == |home| + |s| - 1
  {
  }

  /** Expanding twice is expanding once when the home directory does not
      itself start with an expandable ~. */
  lemma ExpandTildeIdempotent(s: string, home: string)
    requires !LeadingTilde(home)
    ensures ExpandTilde(ExpandTilde(s, home), home) == ExpandTilde(s, home)
  {
    if LeadingTilde(s) {
      var r := home + s[1..];
      if |home| == 0 {
        assert r == s[1..];
        assert !LeadingTilde(r);
      } else {
        assert r[0] == home[0];
        assert |home| > 1 ==> r[1] == home[1];
      }
    }
  }

  // ---- the snapshot name --------------------------------------------------------

  function Digit(d: int): char
    requires 0 <= d < 10
  {
    ('0' as int + d) as char
  }

  predicate IsDigit(c: char) {
    '0' <= c <= '9'
  }

  /** moment's zeroFill(n, 2): the sign, then |n| padded with zeros to two
      digits. */
  function ZeroFill2(n: int): (s: string)
    requires -100 < n < 100
    ensures n >= 0 ==> |s| == 2 && IsDigit(s[0]) && IsDigit(s[1])
    ensures n < 0 ==> |s| == 3 && s[0] == '-'
  {
    var a := if n < 0 then -n else n;
    (if n < 0 then "-" else "") + [Digit(a / 10), Digit(a % 10)]
  }

  /** The number two digits stand for. */
  function ParseTwo(s: string): int
    requires |s| == 2
  {
    (s[0] as int - '0' as int) * 10 + (s[1] as int - '0' as int)
  }

  lemma ParseZeroFill2(n: int)
    requires 0 <= n < 100
    ensures ParseTwo(ZeroFill2(n)) == n
  {
  }

  /** The YY field: JavaScript's year % 100, which keeps the sign of the year. */
  function YearOfCentury(y: int): (r: int)
    ensures -100 < r < 100
    ensures y >= 0 ==> r == y % 100
  {
    if y >= 0 then y % 100 else -((-y) % 100)
  }

  /** now.format("YYMMDD-HHmmss"): two digits each for the year of the
      century, the month counted from 1, the day, the hour, the minute and the
      second, with a dash between the date and the time. */
  function Stamp(t: Instant): string
    requires Valid(t)
  {
    ZeroFill2(YearOfCentury(t.year)) + ZeroFill2(t.month + 1) + ZeroFill2(t.date)
    + "-" + ZeroFill2(t.hour) + ZeroFill2(t.minute) + ZeroFill2(t.second)
  }

  /** The snapshot directory name: the database name, a dash and the stamp. */
  function SnapshotName(dbName: string, t: Instant): string
    requires Valid(t)
  {
    dbName + "-" + Stamp(t)
  }

  /** A stamp of a year from 0 on: six digits, a dash, six digits. */
  predicate StampShape(s: string) {
    && |s| == 13
    && (forall i :: 0 <= i < 6 ==> IsDigit(s[i]))
    && s[6] == '-'
    && (forall i :: 7 <= i < 13 ==> IsDigit(s[i]))
  }

  lemma StampHasShape(t: Instant)
    requires Valid(t) && t.year >= 0
    ensures StampShape(Stamp(t))
  {
    var s := Stamp(t);
    var yy, mo, dd := ZeroFill2(YearOfCentury(t.year)), ZeroFill2(t.month + 1), ZeroFill2(t.date);
    var hh, mi, ss := ZeroFill2(t.hour), ZeroFill2(t.minute), ZeroFill2(t.second);
    assert s == yy + mo + dd + "-" + hh + mi + ss;
    assert s[..6] == yy + mo + dd;
    assert s[7..] == hh + mi + ss;
  }

  /** The snapshot name starts with the database name and a dash, ends in the
      stamp, and is 14 characters longer than the database name. */
  lemma SnapshotNameShape(dbName: string, t: Instant)
    requires Valid(t) && t.year >= 0
    ensures var n := SnapshotName(dbName, t);
      && |n| == |dbName| + 14
      && n[..|dbName|] == dbName && n[|dbName|] == '-'
      && n[|dbName| + 1..] == Stamp(t)
      && StampShape(n[|dbName| + 1..])
  {
    StampHasShape(t);
    var n := SnapshotName(dbName, t);
    assert n[|dbName| + 1..] == Stamp(t);
  }

  /** The fields a stamp holds, read back from its digits. */
  function StampFields(s: string): (r: seq<int>)
    requires |s| == 13
    ensures |r| == 6
  {
    [ParseTwo(s[0..2]), ParseTwo(s[2..4]), ParseTwo(s[4..6]),
     ParseTwo(s[7..9]), ParseTwo(s[9..11]), ParseTwo(s[11..13])]
  }

  /** Reading a stamp back gives the year of the century, the month from 1,
      the day, the hour, the minute and the second it was formatted from. */
  lemma {:induction false} StampRoundTrip(t: Instant)
    requires Valid(t) && t.year >= 0
    ensures |Stamp(t)| == 13
    ensures StampFields(Stamp(t)) == [t.year % 100, t.month + 1, t.date, t.hour, t.minute, t.second]
  {
    var yy, mo, dd := ZeroFill2(YearOfCentury(t.year)), ZeroFill2(t.month + 1), ZeroFill2(t.date);
    var hh, mi, ss := ZeroFill2(t.hour), ZeroFill2(t.minute), ZeroFill2(t.second);
    var s := Stamp(t);
    assert s == yy + mo + dd + "-" + hh + mi + ss;
    assert s[0..2] == yy && s[2..4] == mo && s[4..6] == dd;
    assert s[7..9] == hh && s[9..11] == mi && s[11..13] == ss;
    ParseZeroFill2(YearOfCentury(t.year));
    ParseZeroFill2(t.month + 1);
    ParseZeroFill2(t.date);
    ParseZeroFill2(t.hour);
    ParseZeroFill2(t.minute);
    ParseZeroFill2(t.second);
  }

  /** Two backups of one database get the same snapshot name only when they
      are taken in the same second of the same year of the century: this is
      when the collision check can fire. */
  lemma SnapshotNameInjective(dbName: string, t: Instant, u: Instant)
    requires Valid(t) && t.year >= 0 && Valid(u) && u.year >= 0
    requires SnapshotName(dbName, t) == SnapshotName(dbName, u)
    ensures t.year % 100 == u.year % 100 && t.month == u.month && t.date == u.date
    ensures t.hour == u.hour && t.minute == u.minute && t.second == u.second
  {
    SnapshotNameShape(dbName, t);
    SnapshotNameShape(dbName, u);
    StampRoundTrip(t);
    StampRoundTrip(u);
  }
}
