/**
 * The name of the backup directory chosen before a live run: "old mods" when
 * nothing by that name exists, otherwise "old mods-i" for the first i = 1, 2, ...
 * whose name is free. The file system is represented by the finite set of
 * names that already exist.
 */
module Backup {

  const BaseName: string := "old mods"

  function DigitChar(d: nat): (c: char)
    requires d < 10
    ensures '0' <= c <= '9'
    ensures d > 0 ==> c != '0'
  {
    ('0' as int + d) as char
  }

  /** The value of a decimal digit character. */
  function DigitValue(c: char): (d: nat)
    requires '0' <= c <= '9'
    ensures d < 10
  {
    c as int - '0' as int
  }

  /** The number a string of decimal digits denotes, most significant digit first. */
  function DecimalValue(s: string): nat
    requires forall k :: 0 <= k < |s| ==> '0' <= s[k] <= '9'
  {
    if s == [] then 0 else 10 * DecimalValue(s[..|s| - 1]) + DigitValue(s[|s| - 1])
  }

  /** Decimal rendering of a natural number, as f"{i}" prints it: digits without a leading zero. */
  function DecimalString(n: nat): (r: string)
    ensures |r| >= 1
    ensures forall k :: 0 <= k < |r| ==> '0' <= r[k] <= '9'
    ensures n > 0 ==> r[0] != '0'
  {
    if n < 10 then [DigitChar(n)] else DecimalString(n / 10) + [DigitChar(n % 10)]
  }

  /** The digits DecimalString prints denote the number itself. */
  lemma {:induction false} DecimalRoundTrip(n: nat)
    ensures DecimalValue(DecimalString(n)) == n
  {
    var r := DecimalString(n);
    if n >= 10 {
      DecimalRoundTrip(n / 10);
      assert r[..|r| - 1] == DecimalString(n / 10);
    }
  }

  /** Different numbers give different backup names, so the loop never revisits a name. */
  lemma NumberedNameInjective(i: nat, j: nat)
    requires i != j
    ensures NumberedName(i) != NumberedName(j)
  {
    DecimalRoundTrip(i);
    DecimalRoundTrip(j);
    var p := BaseName + "-";
    assert NumberedName(i)[|p|..] == DecimalString(i);
    assert NumberedName(j)[|p|..] == DecimalString(j);
  }

  /** f"{base_backup_dir}-{i}" */
  function NumberedName(i: nat): string
  {
    BaseName + "-" + DecimalString(i)
  }

  function Pow10(k: nat): (p: nat)
    ensures p >= 1
  {
    if k == 0 then 1 else 10 * Pow10(k - 1)
  }

  /** A number at least 10^k has more than k decimal digits. */
  lemma {:induction false} DecimalStringLength(n: nat, k: nat)
    requires n >= Pow10(k)
    ensures |DecimalString(n)| > k
  {
    if k > 0 {
      assert n / 10 >= Pow10(k - 1);
      DecimalStringLength(n / 10, k - 1);
    }
  }

  /** Every finite set of names has a length bound. */
  lemma {:induction false} LengthBound(names: set<string>) returns (bound: nat)
    ensures forall s :: s in names ==> |s| < bound
    decreases names
  {
    if names == {} {
      bound := 0;
    } else {
      var x :| x in names;
      var b := LengthBound(names - {x});
      bound := if |x| < b then b else |x| + 1;
    }
  }

  /**
   * The backup-name loop: the chosen name does not exist yet; it is "old mods"
   * when that is free, else "old mods-i" with every "old mods-j", 1 <= j < i, taken.
   */
  method ChooseBackupName(existing: set<string>) returns (name: string)
    ensures name !in existing
    ensures BaseName !in existing ==> name == BaseName
    ensures BaseName in existing ==>
      exists i :: i >= 1 && name == NumberedName(i) && (forall j :: 1 <= j < i ==> NumberedName(j) in existing)
  {
    name := BaseName;
    if BaseName in existing {
      ghost var bound := LengthBound(existing);
      ghost var limit := Pow10(bound);
      var i := 1;
      while NumberedName(i) in existing
        invariant 1 <= i <= limit
        invariant forall j :: 1 <= j < i ==> NumberedName(j) in existing
        decreases limit - i
      {
        if i >= limit {
          DecimalStringLength(i, bound);
        }
        i := i + 1;
      }
      name := NumberedName(i);
    }
  }

  /**
   * The directory the archives are read from in Step 1: a dry run leaves the
   * mods directory where it is; a live run reads the fresh backup copy.
   */
  method BackupDirectory(dryRun: bool, modsDir: string, existing: set<string>) returns (dir: string)
    ensures dryRun ==> dir == modsDir
    ensures !dryRun ==> dir !in existing
    ensures !dryRun && BaseName !in existing ==> dir == BaseName
    ensures !dryRun && BaseName in existing ==>
      exists i :: i >= 1 && dir == NumberedName(i) && (forall j :: 1 <= j < i ==> NumberedName(j) in existing)
  {
    dir := modsDir;
    if !dryRun {
      dir := ChooseBackupName(existing);
    }
  }
}
