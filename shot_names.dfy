/** The file names of a multi-shot capture: shot `i` of `filename` is
    `filename` with `_i` inserted just before its last '.', or appended when
    there is no '.'. `SplitShotName` undoes the insertion. */
module ShotNames {
  import opened Wrappers

  /** `s.rfind(c)`: the index of the last `c` in `s`, if any. */
  function LastIndexOf(s: string, c: char): (r: Option<nat>)
    ensures r.Some? ==> r.value < |s| && s[r.value] == c && forall j :: r.value < j < |s| ==> s[j] != c
    ensures r.None? ==> forall j :: 0 <= j < |s| ==> s[j] != c
  {
    if s == [] then None
    else if s[|s| - 1] == c then Some(|s| - 1)
    else LastIndexOf(s[..|s| - 1], c)
  }

  lemma LastIndexOfIs(s: string, c: char, k: nat)
    requires k < |s| && s[k] == c
    requires forall j :: k < j < |s| ==> s[j] != c
    ensures LastIndexOf(s, c) == Some(k)
  {
  }

  lemma LastIndexOfAbsent(s: string, c: char)
    requires forall j :: 0 <= j < |s| ==> s[j] != c
    ensures LastIndexOf(s, c) == None
  {
  }

  /** `filename.rfind('.').unwrap_or_else(|| filename.len())`. */
  function InsertionPoint(filename: string): (d: nat)
    ensures d <= |filename|
    ensures d < |filename| ==>
      filename[d] == '.' && forall j :: d < j < |filename| ==> filename[j] != '.'
    ensures d == |filename| ==> forall j :: 0 <= j < |filename| ==> filename[j] != '.'
  {
    match LastIndexOf(filename, '.')
    case Some(k) => k
    case None => |filename|
  }

  predicate IsDigit(c: char)
  {
    '0' <= c <= '9'
  }

  predicate AllDigits(s: string)
  {
    forall k :: 0 <= k < |s| ==> IsDigit(s[k])
  }

  function DigitChar(d: nat): (c: char)
    requires d < 10
    ensures IsDigit(c)
  {
    (48 + d) as char
  }

  function DigitValue(c: char): (d: nat)
    requires IsDigit(c)
    ensures d < 10
  {
    c as int - 48
  }

  /** `format!("{}", n)`: the decimal digits of `n`, without leading zeros. */
  function Decimal(n: nat): (s: string)
    ensures s != [] && AllDigits(s)
    ensures s[0] == '0' <==> n == 0
    ensures n < 10 <==> |s| == 1
  {
    if n < 10 then [DigitChar(n)] else Decimal(n / 10) + [DigitChar(n % 10)]
  }

  /** The number a string of decimal digits denotes. */
  function DecimalValue(s: string): nat
    requires AllDigits(s)
  {
    if s == [] then 0 else DecimalValue(s[..|s| - 1]) * 10 + DigitValue(s[|s| - 1])
  }

  lemma {:induction false} DecimalRoundTrip(n: nat)
    ensures DecimalValue(Decimal(n)) == n
  {
    var s := Decimal(n);
    if n >= 10 {
      DecimalRoundTrip(n / 10);
      assert s[..|s| - 1] == Decimal(n / 10);
    }
  }

  /** `s.insert_str(at, t)`. */
  function InsertStr(s: string, at: nat, t: string): string
    requires at <= |s|
  {
    s[..at] + t + s[at..]
  }

  /** The name of shot `i` (the loop body of `multiscreenshot`). */
  function ShotName(filename: string, i: nat): string
  {
    InsertStr(filename, InsertionPoint(filename), "_" + Decimal(i))
  }

  /** The inverse of `ShotName`: the suffix `_digits` just before the last
      '.' (or at the end), taken out again, with the number it spells. */
  function SplitShotName(name: string): Option<(string, nat)>
  {
    var d := InsertionPoint(name);
    match LastIndexOf(name[..d], '_')
    case None => None
    case Some(u) =>
      var digits := name[u + 1..d];
      if digits != [] && AllDigits(digits) then Some((name[..u] + name[d..], DecimalValue(digits)))
      else None
  }

  /** Everything before the insertion point and everything from it on is
      kept, and the name still has its extension: its last '.' is the
      filename's last '.', moved right past the inserted `_i`. */
  lemma ShotNameShape(filename: string, i: nat)
    ensures var d, name := InsertionPoint(filename), ShotName(filename, i);
      var d' := d + 1 + |Decimal(i)|;
      |name| == |filename| + 1 + |Decimal(i)|
      && name[..d] == filename[..d] && name[d] == '_'
      && name[d + 1..d'] == Decimal(i) && name[d'..] == filename[d..]
      && InsertionPoint(name) == d'
  {
  }

  /** Splitting the name of shot `i` gives back the filename and `i`. */
  lemma ShotNameRoundTrip(filename: string, i: nat)
    ensures SplitShotName(ShotName(filename, i)) == Some((filename, i))
  {
    var d, D := InsertionPoint(filename), Decimal(i);
    var name := ShotName(filename, i);
    ShotNameShape(filename, i);
    var d' := d + 1 + |D|;
    var head := name[..d'];
    assert head[d] == '_';
    forall j | d < j < |head| ensures head[j] != '_' {
      assert head[j] == D[j - d - 1];
    }
    LastIndexOfIs(head, '_', d);
    assert name[d + 1..d'] == D;
    DecimalRoundTrip(i);
    assert name[..d] + name[d'..] == filename[..d] + filename[d..] == filename;
  }

  /** Distinct shots get distinct names. */
  lemma ShotNamesDistinct(filename: string, i: nat, j: nat)
    requires i != j
    ensures ShotName(filename, i) != ShotName(filename, j)
  {
    ShotNameRoundTrip(filename, i);
    ShotNameRoundTrip(filename, j);
  }

  /** The rightmost '.' decides even when it is not in the last path component. */
  lemma DotInDirectoryName()
    ensures ShotName("a.dir/f", 1) == "a_1.dir/f"
    ensures ShotName("out.png", 4) == "out_4.png"
    ensures ShotName("noext", 3) == "noext_3"
  {
    LastIndexOfIs("a.dir/f", '.', 1);
    LastIndexOfIs("out.png", '.', 3);
    LastIndexOfAbsent("noext", '.');
  }
}
