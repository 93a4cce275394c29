/** Hours, partitions and file names of the hourly archive. */
module ArchiveNames {
  import opened Decimals

  datatype Update = Update(target: string, timestampNs: int, row: string)

  const HOUR_NS: int := 3_600_000_000_000
  const MIN_I64: int := -0x8000_0000_0000_0000
  const MAX_I64: int := 0x7fff_ffff_ffff_ffff

  /** A timestamp as the source stores it. */
  predicate IsTimestamp(t: int) {
    MIN_I64 <= t <= MAX_I64
  }

  function HourIndex(t: int): int {
    t / HOUR_NS
  }

  /** The start of the hour of `t`, with the source's saturating multiplication. */
  function HourStart(t: int): int {
    var start := HourIndex(t) * HOUR_NS;
    if start < MIN_I64 then MIN_I64 else if start > MAX_I64 then MAX_I64 else start
  }

  /** Saturation neither merges nor reorders hours: starts compare as the hours since the epoch do. */
  lemma HourStartIdentifiesHour(s: int, t: int)
    requires IsTimestamp(s) && IsTimestamp(t)
    ensures HourStart(s) == HourStart(t) <==> s / 3_600_000_000_000 == t / 3_600_000_000_000
    ensures HourStart(s) < HourStart(t) <==> s / 3_600_000_000_000 < t / 3_600_000_000_000
  {
    var low := HourIndex(MIN_I64);
    assert low * HOUR_NS < MIN_I64 < (low + 1) * HOUR_NS;
    assert forall x: int :: IsTimestamp(x) ==> low <= HourIndex(x) && HourIndex(x) * HOUR_NS <= MAX_I64;
    assert forall x: int :: IsTimestamp(x) && HourIndex(x) > low ==> HourIndex(x) * HOUR_NS >= (low + 1) * HOUR_NS;
  }

  /** The calendar fields of the source are those of `hour`, counted in hours since the epoch. */
  datatype Partition = Partition(target: string, hour: int, hourStartNs: int)

  function PartitionOf(u: Update): Partition {
    Partition(u.target, HourIndex(u.timestampNs), HourStart(u.timestampNs))
  }

  /** Updates share a partition exactly when they have one target and fall in one hour since the epoch. */
  lemma PartitionIdentifies(u: Update, v: Update)
    ensures PartitionOf(u) == PartitionOf(v) <==>
            u.target == v.target && u.timestampNs / 3_600_000_000_000 == v.timestampNs / 3_600_000_000_000
  {
  }

  /** A file: the directory of its calendar day and its name. */
  datatype Path = Path(day: int, name: string)

  function SanitizeChar(c: char): char {
    if 'a' <= c <= 'z' || 'A' <= c <= 'Z' || '0' <= c <= '9' || c == '-' || c == '_' || c == '.' then c else '_'
  }

  function Sanitize(s: string): (r: string)
    ensures |r| == |s|
  {
    if s == "" then "" else [SanitizeChar(s[0])] + Sanitize(s[1..])
  }

  /** At least two digits. */
  function Padded(n: nat): string {
    if n < 10 then "0" + Decimal(n) else Decimal(n)
  }

  function Suffix(part: nat): string {
    if part == 0 then "" else "__part-" + Padded(part)
  }

  function FilePath(p: Partition, part: nat): Path {
    Path(p.hour / 24, Sanitize(p.target) + "__hour-" + Padded(p.hour % 24) + Suffix(part) + ".parquet")
  }

  /** The ASCII letters and digits, by code point, and three more characters. */
  predicate IsPlain(c: char) {
    var i := c as int;
    48 <= i <= 57 || 65 <= i <= 90 || 97 <= i <= 122 || c in {'-', '_', '.'}
  }

  /** A file name is flat: sanitizing leaves no path separator, and names made of plain characters alone. */
  lemma {:induction false} SanitizedIsFlat(s: string)
    ensures '/' !in Sanitize(s) && '\\' !in Sanitize(s) && Sanitize(Sanitize(s)) == Sanitize(s)
    ensures forall i :: 0 <= i < |s| ==>
              Sanitize(s)[i] == if IsPlain(s[i]) then s[i] else '_'
  {
    if s != "" {
      SanitizedIsFlat(s[1..]);
      assert Sanitize(s)[1..] == Sanitize(s[1..]);
    }
  }

  /** An update is stored in the directory of its day, under its hour of that day in two digits. */
  lemma FilePathOfUpdate(u: Update, part: nat)
    ensures var path := FilePath(PartitionOf(u), part);
            var hour := u.timestampNs / 3_600_000_000_000 % 24;
            && path.day == u.timestampNs / 86_400_000_000_000
            && path.name == Sanitize(u.target) + "__hour-" + [Digit(hour / 10), Digit(hour % 10)] +
                            (if part == 0 then "" else "__part-" + Padded(part)) + ".parquet"
  {
    var hour := u.timestampNs / 3_600_000_000_000;
    assert u.timestampNs / 86_400_000_000_000 == hour / 24;
    TwoDigits(hour % 24);
  }

  lemma TwoDigits(n: nat)
    requires n < 100
    ensures Padded(n) == [Digit(n / 10), Digit(n % 10)]
  {
    assert n >= 10 ==> Decimal(n / 10) == [Digit(n / 10)];
  }

  lemma PaddedInjective(m: nat, n: nat)
    requires Padded(m) == Padded(n)
    ensures m == n
  {
    ValueOfPadded(m);
    ValueOfPadded(n);
  }

  lemma ValueOfPadded(n: nat)
    ensures Value(Padded(n)) == n
  {
    ValueOfDecimal(n);
    if n < 10 {
      assert Padded(n) == ['0', Digit(n)];
      assert Padded(n)[..1] == ['0'];
      assert ['0'][..0] == [];
    }
  }

  /** Different parts of one partition have different paths, so the part search never looks at a path twice. */
  lemma FilePathInjective(p: Partition, m: nat, n: nat)
    requires FilePath(p, m) == FilePath(p, n)
    ensures m == n
  {
    var pre := Sanitize(p.target) + "__hour-" + Padded(p.hour % 24);
    var a, b := Suffix(m), Suffix(n);
    CutEnds(pre, a, b, ".parquet");
    if m != 0 && n != 0 {
      assert a[7..] == Padded(m) && b[7..] == Padded(n);
      PaddedInjective(m, n);
    }
  }

  lemma CutEnds(pre: string, a: string, b: string, post: string)
    requires pre + a + post == pre + b + post
    ensures a == b
  {
    assert |a| == |b|;
    assert a == (pre + a + post)[|pre|..|pre| + |a|];
    assert b == (pre + b + post)[|pre|..|pre| + |b|];
  }
}
