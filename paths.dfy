/**
 * File placement: where each store puts a note, the parts of a path that
 * `pathlib` reports, and the month bucket `datetime.fromisoformat(...)
 * .strftime("%Y-%m")` derives from a creation timestamp.
 */
module Paths {
  import opened Wrappers
  import opened Text

  /** `Path(dir) / name`, without pathlib's normalisation of repeated or trailing separators. */
  function Join(dir: string, name: string): string {
    dir + "/" + name
  }

  /** `Path(path).name`. */
  function BaseName(path: string): (r: string)
    ensures '/' !in r
  {
    match LastIndexOf(path, '/')
    case None => path
    case Some(i) => path[i + 1..]
  }

  /** `Path(path).stem`: the name without its last suffix; a leading or trailing dot is not a suffix. */
  function Stem(path: string): string {
    var name := BaseName(path);
    match LastIndexOf(name, '.')
    case Some(i) => if 0 < i < |name| - 1 then name[..i] else name
    case None => name
  }

  /** `Path(path).parts`, as the `/`-separated components. */
  function Components(path: string): (r: seq<string>)
    ensures |r| >= 1 && r[|r| - 1] == BaseName(path)
  {
    match LastIndexOf(path, '/')
    case None => [path]
    case Some(i) => Components(path[..i]) + [path[i + 1..]]
  }

  /** Both stores skip files whose path has an `.index` component: that is where the index itself lives. */
  predicate UnderIndexDir(path: string) {
    ".index" in Components(path)
  }

  /** `rglob("*.md")` yields only names ending in `.md`. */
  predicate IsMarkdownName(path: string) {
    var name := BaseName(path);
    |name| >= 3 && name[|name| - 3..] == ".md"
  }

  /** The files `rebuild_index` reads: `rglob("*.md")` outside the index directory. */
  predicate Indexable(p: string) {
    IsMarkdownName(p) && !UnderIndexDir(p)
  }

  /** The one-note-per-file layout: `<root>/<module>/<id>.md`. */
  function FlatPath(root: string, moduleName: string, id: string): string {
    Join(Join(root, moduleName), id + ".md")
  }

  /** A note placed by id is read back under that id when its file has no metadata block. */
  lemma StemOfFlatPath(root: string, moduleName: string, id: string)
    requires id != [] && '/' !in id
    ensures Stem(FlatPath(root, moduleName, id)) == id
    ensures IsMarkdownName(FlatPath(root, moduleName, id))
  {
    var p := FlatPath(root, moduleName, id);
    var name := id + ".md";
    assert p == Join(root, moduleName) + "/" + name;
    assert '/' !in name;
    var i := |Join(root, moduleName)|;
    assert p[i] == '/';
    assert p[i + 1..] == name;
    assert LastIndexOf(p, '/') == Some(i);
    assert BaseName(p) == name;
    assert name[|id|] == '.';
    assert LastIndexOf(name, '.') == Some(|id|);
  }

  // ---------------------------------------------------------------- dates

  predicate IsDigit(c: char) {
    '0' <= c <= '9'
  }

  function DigitValue(c: char): nat
    requires IsDigit(c)
  {
    (c as int - '0' as int) as nat
  }

  function DigitChar(d: nat): (c: char)
    requires d < 10
    ensures IsDigit(c) && DigitValue(c) == d
  {
    ('0' as int + d) as char
  }

  /** `str(n)`, which is also what glibc's `%Y` gives: no zero padding. */
  function Decimal(n: nat): (r: string)
    ensures |r| >= 1 && AllDigits(r)
    decreases n
  {
    if n < 10 then [DigitChar(n)] else Decimal(n / 10) + [DigitChar(n % 10)]
  }

  predicate AllDigits(s: string) {
    forall i :: 0 <= i < |s| ==> IsDigit(s[i])
  }

  function Number(s: string): nat
    requires AllDigits(s)
  {
    if s == [] then 0 else 10 * Number(s[..|s| - 1]) + DigitValue(s[|s| - 1])
  }

  predicate IsLeap(y: nat) {
    (y % 4 == 0 && y % 100 != 0) || y % 400 == 0
  }

  function DaysIn(y: nat, m: nat): nat {
    if m == 2 then (if IsLeap(y) then 29 else 28)
    else if m == 4 || m == 6 || m == 9 || m == 11 then 30
    else 31
  }

  /** `created` begins with a valid `YYYY-MM-DD` calendar date. */
  predicate HasIsoDate(created: string) {
    && |created| >= 10
    && AllDigits(created[0..4]) && created[4] == '-'
    && AllDigits(created[5..7]) && created[7] == '-' && AllDigits(created[8..10])
    && 1 <= Number(created[0..4])
    && 1 <= Number(created[5..7]) <= 12
    && 1 <= Number(created[8..10]) <= DaysIn(Number(created[0..4]), Number(created[5..7]))
  }

  /** `datetime.fromisoformat(created).strftime("%Y-%m")`; `None` where `fromisoformat` raises. */
  function YearMonth(created: string): (r: Option<string>)
    ensures r.Some? <==> HasIsoDate(created)
  {
    if HasIsoDate(created) then Some(Decimal(Number(created[0..4])) + "-" + created[5..7]) else None
  }

  /** The grouped layout: `<root>/<module>/<YYYY-MM>.md`; `None` where the timestamp does not parse. */
  function GroupedPath(root: string, moduleName: string, created: string): Option<string> {
    match YearMonth(created)
    case None => None
    case Some(ym) => Some(Join(Join(root, moduleName), ym + ".md"))
  }

  lemma DecimalOfFourDigits(s: string)
    requires |s| == 4 && AllDigits(s) && s[0] != '0'
    ensures Decimal(Number(s)) == s
  {
    var a, b, c, d := DigitValue(s[0]), DigitValue(s[1]), DigitValue(s[2]), DigitValue(s[3]);
    assert s[..3][..2][..1] == [s[0]];
    assert Number(s[..3][..2][..1]) == a;
    assert Number(s[..3][..2]) == 10 * a + b;
    assert Number(s[..3]) == 100 * a + 10 * b + c;
    var n := Number(s);
    assert n == 1000 * a + 100 * b + 10 * c + d;
    assert a >= 1;
    assert n / 10 == 100 * a + 10 * b + c && n % 10 == d;
    assert n / 10 / 10 == 10 * a + b && n / 10 % 10 == c;
    assert n / 10 / 10 / 10 == a && n / 10 / 10 % 10 == b;
    forall i | 0 <= i < 4 ensures DigitChar(DigitValue(s[i])) == s[i] { }
    assert Decimal(a) == [s[0]];
    assert Decimal(n / 10 / 10) == [s[0]] + [s[1]];
    assert Decimal(n / 10) == [s[0]] + [s[1]] + [s[2]];
    assert Decimal(n) == [s[0]] + [s[1]] + [s[2]] + [s[3]];
  }

  /** For years from 1000 on, the bucket is the first seven characters of the timestamp. */
  lemma YearMonthIsPrefix(created: string)
    requires HasIsoDate(created) && created[0] != '0'
    ensures YearMonth(created) == Some(created[..7])
  {
    DecimalOfFourDigits(created[0..4]);
    assert created[..7] == created[0..4] + "-" + created[5..7];
  }

  /**
   * The grouped placement depends only on module and the year-month of
   * `created`: two notes of one module created in the same month share a file.
   */
  lemma SameMonthSameFile(root: string, moduleName: string, c1: string, c2: string)
    requires HasIsoDate(c1) && HasIsoDate(c2) && c1[..7] == c2[..7]
    ensures GroupedPath(root, moduleName, c1).Some?
    ensures GroupedPath(root, moduleName, c1) == GroupedPath(root, moduleName, c2)
  {
    assert c1[0..4] == c1[..7][0..4] == c2[..7][0..4] == c2[0..4];
    assert c1[5..7] == c1[..7][5..7] == c2[..7][5..7] == c2[5..7];
  }
}
