/**
 * Two pieces of the desktop client's window: the rule that prints a file
 * size with a unit (B, KB, MB or GB), and the table model of the "select
 * files" dialog, which keeps one check box per file offered by the tracker.
 */
module TorrentClientFrame {
  import opened Wire
  import opened TrackerProtocol
  import TorrentClient

  // ---------------------------------------------------------------------------
  // Decimal numbers, as Long.toString prints them

  predicate IsDigit(c: char)
  {
    '0' <= c <= '9'
  }

  function DigitChar(d: nat): (c: char)
    requires d < 10
  {
    (('0' as int) + d) as char
  }

  /** The decimal digits of n, without leading zeros. */
  function Digits(n: nat): string
    decreases n
  {
    if n < 10 then [DigitChar(n)] else Digits(n / 10) + [DigitChar(n % 10)]
  }

  /** Long.toString: a minus sign for a negative value, then the digits. */
  function Decimal(n: int): string
  {
    if n < 0 then "-" + Digits(-n) else Digits(n)
  }

  predicate AllDigits(s: string)
  {
    forall i :: 0 <= i < |s| ==> IsDigit(s[i])
  }

  /** The value of a string of decimal digits. */
  function DigitsValue(s: string): nat
    requires AllDigits(s)
  {
    if s == [] then 0
    else DigitsValue(s[..|s| - 1]) * 10 + ((s[|s| - 1] as int) - ('0' as int))
  }

  /** Long.parseLong on the strings Long.toString prints: an optional minus sign, then digits. */
  function ParseDecimal(s: string): Option<int>
  {
    if |s| > 1 && s[0] == '-' && AllDigits(s[1..]) then Some(-(DigitsValue(s[1..]) as int))
    else if s != [] && AllDigits(s) then Some(DigitsValue(s))
    else None
  }

  /** The digits are decimal digits, the first one is not 0 unless n is, and they read back as n. */
  lemma {:induction false} DigitsRoundTrip(n: nat)
    ensures |Digits(n)| > 0 && AllDigits(Digits(n))
    ensures n > 0 ==> Digits(n)[0] != '0'
    ensures DigitsValue(Digits(n)) == n
    decreases n
  {
    if n >= 10 {
      DigitsRoundTrip(n / 10);
      var s := Digits(n);
      assert s[..|s| - 1] == Digits(n / 10);
      assert s[0] == Digits(n / 10)[0];
    }
  }

  /** What Long.toString prints reads back as the same number. */
  lemma DecimalRoundTrip(n: int)
    ensures |Decimal(n)| > 0 && IsDigit(Decimal(n)[|Decimal(n)| - 1])
    ensures ParseDecimal(Decimal(n)) == Some(n)
  {
    if n < 0 {
      DigitsRoundTrip(-n);
      assert Decimal(n)[1..] == Digits(-n);
    } else {
      DigitsRoundTrip(n);
    }
  }

  // ---------------------------------------------------------------------------
  // SizeRenderer

  const KILOBYTE: nat := 1024
  const MEGABYTE: nat := 1024 * 1024
  const GIGABYTE: nat := 1024 * 1024 * 1024

  datatype SizeUnit = Bytes | Kilobytes | Megabytes | Gigabytes

  function Scale(u: SizeUnit): nat
  {
    match u
    case Bytes => 1
    case Kilobytes => KILOBYTE
    case Megabytes => MEGABYTE
    case Gigabytes => GIGABYTE
  }

  function Suffix(u: SizeUnit): string
  {
    match u
    case Bytes => "B"
    case Kilobytes => "KB"
    case Megabytes => "MB"
    case Gigabytes => "GB"
  }

  /** The unit SizeRenderer picks for a size. */
  function UnitFor(size: int): SizeUnit
  {
    if size < KILOBYTE * 2 then Bytes
    else if size < MEGABYTE * 2 then Kilobytes
    else if size < GIGABYTE * 2 then Megabytes
    else Gigabytes
  }

  /** The text of the size column: the size in whole units, then the unit. */
  function SizeLabel(size: int64): string
  {
    Decimal(size / Scale(UnitFor(size))) + Suffix(UnitFor(size))
  }

  /** Reads a label back as the amount and the unit it shows. */
  function ParseLabel(s: string): Option<(int, SizeUnit)>
  {
    if |s| >= 2 && s[|s| - 2..] == "KB" then Amount(s[..|s| - 2], Kilobytes)
    else if |s| >= 2 && s[|s| - 2..] == "MB" then Amount(s[..|s| - 2], Megabytes)
    else if |s| >= 2 && s[|s| - 2..] == "GB" then Amount(s[..|s| - 2], Gigabytes)
    else if |s| >= 1 && s[|s| - 1..] == "B" then Amount(s[..|s| - 1], Bytes)
    else None
  }

  function Amount(s: string, u: SizeUnit): Option<(int, SizeUnit)>
  {
    match ParseDecimal(s)
    case None => None
    case Some(n) => Some((n, u))
  }

  /** The four branches of the renderer, with their thresholds at two of each unit. */
  lemma SizeLabelBranches(size: int64)
    ensures size < 2048 ==> SizeLabel(size) == Decimal(size) + "B"
    ensures 2048 <= size < 2 * 1048576 ==> SizeLabel(size) == Decimal(size / 1024) + "KB"
    ensures 2 * 1048576 <= size < 2 * 1073741824 ==> SizeLabel(size) == Decimal(size / 1048576) + "MB"
    ensures 2 * 1073741824 <= size ==> SizeLabel(size) == Decimal(size / 1073741824) + "GB"
  {
  }

  /** A number followed by a unit reads back as that number and unit. */
  lemma LabelReadsBack(n: int, u: SizeUnit)
    ensures ParseLabel(Decimal(n) + Suffix(u)) == Some((n, u))
  {
    var d := Decimal(n);
    var s := d + Suffix(u);
    DecimalRoundTrip(n);
    if u == Bytes {
      assert s[|s| - 1..] == "B" && s[..|s| - 1] == d;
      assert s[|s| - 2] == d[|d| - 1];
    } else {
      assert s[|s| - 2..] == Suffix(u) && s[..|s| - 2] == d;
    }
  }

  /** The size column's text reads back as the amount and the unit it shows. */
  lemma SizeLabelReadsBack(size: int64)
    ensures ParseLabel(SizeLabel(size)) == Some((size / Scale(UnitFor(size)), UnitFor(size)))
  {
    LabelReadsBack(size / Scale(UnitFor(size)), UnitFor(size));
  }

  /**
   * The amount shown is the size rounded down to whole units; from 2 KB on
   * it is at least 2, and below the gigabytes it stays under 2048.
   */
  lemma SizeLabelAmount(size: int64)
    ensures size >= 0 ==> (size / Scale(UnitFor(size))) * Scale(UnitFor(size)) <= size
                          < (size / Scale(UnitFor(size)) + 1) * Scale(UnitFor(size))
    ensures size >= 2 * KILOBYTE ==> size / Scale(UnitFor(size)) >= 2
    ensures UnitFor(size) != Gigabytes ==> size / Scale(UnitFor(size)) < 2 * KILOBYTE
  {
  }

  // ---------------------------------------------------------------------------
  // GetFilesTableModel

  /** The files whose flag is set, in their order in the list. */
  function Chosen(files: seq<TrackerFileEntry>, flags: seq<bool>): seq<TrackerFileEntry>
    requires |flags| == |files|
  {
    if files == [] then []
    else Chosen(files[..|files| - 1], flags[..|flags| - 1]) + (if flags[|flags| - 1] then [files[|files| - 1]] else [])
  }

  /** The chosen files are the files at the indices of the set flags, in ascending order. */
  lemma {:induction false} ChosenAtPresentIndices(files: seq<TrackerFileEntry>, flags: seq<bool>)
    requires |flags| == |files| <= INT32_MAX
    ensures |Chosen(files, flags)| == |TorrentClient.PresentIndices(flags)|
    ensures forall k :: 0 <= k < |Chosen(files, flags)| ==>
              0 <= TorrentClient.PresentIndices(flags)[k] < |files|
              && Chosen(files, flags)[k] == files[TorrentClient.PresentIndices(flags)[k]]
  {
    if files != [] {
      var n := |files| - 1;
      var before := Chosen(files[..n], flags[..n]);
      var idx := TorrentClient.PresentIndices(flags[..n]);
      ChosenAtPresentIndices(files[..n], flags[..n]);
      assert Chosen(files, flags) == before + (if flags[n] then [files[n]] else []);
      assert TorrentClient.PresentIndices(flags) == idx + (if flags[n] then [n] else []);
      forall k | 0 <= k < |before|
        ensures 0 <= idx[k] < |files| && before[k] == files[idx[k]]
      {
        assert files[..n][idx[k]] == files[idx[k]];
      }
    }
  }

  /** getSelectedFiles' answer holds a file exactly when some set flag stands beside it. */
  lemma ChosenMembers(files: seq<TrackerFileEntry>, flags: seq<bool>, x: TrackerFileEntry)
    requires |flags| == |files| <= INT32_MAX
    ensures x in Chosen(files, flags) <==> exists i :: 0 <= i < |files| && flags[i] && files[i] == x
  {
    ChosenAtPresentIndices(files, flags);
    TorrentClient.PresentIndicesMeaning(flags);
    var idx := TorrentClient.PresentIndices(flags);
    var r := Chosen(files, flags);
    if x in r {
      var k :| 0 <= k < |r| && r[k] == x;
      assert idx[k] in idx;
    }
    if i :| 0 <= i < |files| && flags[i] && files[i] == x {
      assert i in idx;
      var k :| 0 <= k < |idx| && idx[k] == i;
      assert r[k] == x;
    }
  }

  /** A cell's value: the name, the size or the check box; null past the last row. */
  datatype Cell = NameCell(name: Utf) | SizeCell(size: int64) | FlagCell(flag: bool) | NullCell

  class GetFilesTableModel {
    const files: seq<TrackerFileEntry>
    const selected: array<bool>

    ghost predicate Valid()
      reads this
    {
      selected.Length == |files| <= INT32_MAX
    }

    /** One check box per file, none ticked (`new boolean[n]`). */
    constructor (files: seq<TrackerFileEntry>)
      requires |files| <= INT32_MAX
      ensures Valid() && this.files == files && fresh(selected)
      ensures forall i :: 0 <= i < selected.Length ==> !selected[i]
    {
      this.files := files;
      selected := new bool[|files|](_ => false);
    }

    /** getValueAt; a negative row makes `files.get` throw, which callers never ask for. */
    function GetValueAt(row: int, column: int): (cell: Cell)
      requires Valid() && 0 <= row
      reads this, selected
      ensures cell != NullCell <==> row < |files| && 0 <= column <= 2
      ensures row < |files| && column == 2 ==> cell == FlagCell(selected[row])
    {
      if row >= |files| then NullCell
      else if column == 0 then NameCell(files[row].fileName)
      else if column == 1 then SizeCell(files[row].size)
      else if column == 2 then FlagCell(selected[row])
      else NullCell
    }

    /** Only the check-box column can be edited. */
    predicate IsCellEditable(row: int, column: int)
    {
      column == 2
    }

    /** setValueAt: a tick in the check-box column changes that row's flag alone. */
    method SetValueAt(value: bool, row: int, column: int)
      requires Valid()
      requires IsCellEditable(row, column) ==> 0 <= row < |files|
      modifies selected
      ensures IsCellEditable(row, column) ==> selected[..] == old(selected[..])[row := value]
      ensures !IsCellEditable(row, column) ==> selected[..] == old(selected[..])
      ensures IsCellEditable(row, column) ==> GetValueAt(row, column) == FlagCell(value)
    {
      if column == 2 {
        selected[row] := value;
      }
    }

    /** getSelectedFiles: the ticked files, in list order. */
    method GetSelectedFiles() returns (result: seq<TrackerFileEntry>)
      requires Valid()
      ensures result == Chosen(files, selected[..])
    {
      result := [];
      for i := 0 to |files|
        invariant result == Chosen(files[..i], selected[..i])
      {
        assert files[..i + 1][..i] == files[..i];
        assert selected[..i + 1][..i] == selected[..i];
        if selected[i] {
          result := result + [files[i]];
        }
      }
      assert files[..|files|] == files;
      assert selected[..|files|] == selected[..];
    }
  }
}
