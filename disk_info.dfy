/**
  The disk collector: it reads /proc/partitions, skips the two header lines,
  and for every row with exactly four whitespace-separated fields records the
  partition name (fourth field) and its size in megabytes (third field, in
  1 KiB blocks, floor-divided by 1024), in row order.
 */
module DiskInfo {
  import opened Wrappers
  import opened PyText

  /** One `(name, size_mb)` tuple of the collector's list. */
  datatype Disk = Disk(name: string, sizeMb: int)

  /** `len(line.split()) == 4`. */
  predicate HasFourFields(line: string) {
    |Split(line)| == 4
  }

  /** A four-field row whose third field `int()` rejects. */
  predicate Unparsable(line: string) {
    HasFourFields(line) && ParseInt(Split(line)[2]).None?
  }

  /** The loop body for one row: no entry for a row without four fields, a
      ValueError for an unparsable size, otherwise the row's entry. */
  function RowEntry(line: string): (r: Result<Option<Disk>, PyError>)
    ensures r.Failure? <==> Unparsable(line)
    ensures r.Failure? ==> r.error == ValueError
    ensures r == Success(None) <==> !HasFourFields(line)
  {
    var parts := Split(line);
    if |parts| == 4 then
      match ParseInt(parts[2])
      case None => Failure(ValueError)
      case Some(blocks) => Success(Some(Disk(parts[3], blocks / 1024)))
    else Success(None)
  }

  /** The list built from `rows`, read front to back. */
  function DiskRows(rows: seq<string>): Result<seq<Disk>, PyError>
  {
    if rows == [] then Success([])
    else
      var disks :- DiskRows(rows[..|rows| - 1]);
      var entry :- RowEntry(rows[|rows| - 1]);
      Success(if entry.Some? then disks + [entry.value] else disks)
  }

  /** The collector's result for the lines of /proc/partitions. */
  function DiskInfo(lines: seq<string>): Result<seq<Disk>, PyError> {
    DiskRows(AfterHeader(lines))
  }

  /** Once the rows read so far have raised, so has the whole list. */
  lemma {:induction false} FailurePersists(rows: seq<string>, n: nat)
    requires n <= |rows| && DiskRows(rows[..n]).Failure?
    ensures DiskRows(rows) == DiskRows(rows[..n])
    decreases |rows|
  {
    if n < |rows| {
      var init := rows[..|rows| - 1];
      assert init[..n] == rows[..n];
      FailurePersists(init, n);
    } else {
      assert rows[..n] == rows;
    }
  }

  /** The collector: a loop over the lines after the header. */
  method GetDiskInfo(lines: seq<string>) returns (r: Result<seq<Disk>, PyError>)
    ensures r == DiskInfo(lines)
  {
    var rows := AfterHeader(lines);
    var disks: seq<Disk> := [];
    for i := 0 to |rows|
      invariant DiskRows(rows[..i]) == Success(disks)
    {
      assert rows[..i + 1][..i] == rows[..i];
      var parts := Split(rows[i]);
      if |parts| == 4 {
        var blocks := ParseInt(parts[2]);
        if blocks.None? {
          FailurePersists(rows, i + 1);
          return Failure(ValueError);
        }
        disks := disks + [Disk(parts[3], blocks.value / 1024)];
      }
    }
    assert rows[..|rows|] == rows;
    return Success(disks);
  }

  /** The rows with exactly four fields, in order: a reference definition
      independent of the parsing. */
  function FourFieldRows(rows: seq<string>): (f: seq<string>)
    ensures |f| <= |rows|
    ensures forall k | 0 <= k < |f| :: HasFourFields(f[k]) && f[k] in rows
  {
    if rows == [] then []
    else
      var last := rows[|rows| - 1];
      var prefix := FourFieldRows(rows[..|rows| - 1]);
      if HasFourFields(last) then prefix + [last] else prefix
  }

  /** The collector raises exactly when some four-field row has a size that
      `int()` rejects. */
  lemma {:induction false} DiskRowsFail(rows: seq<string>)
    ensures DiskRows(rows).Failure? <==> exists i | 0 <= i < |rows| :: Unparsable(rows[i])
    decreases |rows|
  {
    if rows != [] {
      var init := rows[..|rows| - 1];
      DiskRowsFail(init);
      assert DiskRows(rows).Failure? <==> DiskRows(init).Failure? || Unparsable(rows[|rows| - 1]);
      UnparsableSnoc(rows);
    }
  }

  /** Some row is unparsable exactly when one before the last is or the last is. */
  lemma UnparsableSnoc(rows: seq<string>)
    requires rows != []
    ensures var init := rows[..|rows| - 1];
            (exists i | 0 <= i < |rows| :: Unparsable(rows[i]))
              <==> (exists i | 0 <= i < |init| :: Unparsable(init[i])) || Unparsable(rows[|rows| - 1])
  {
    var init := rows[..|rows| - 1];
    if exists i | 0 <= i < |init| :: Unparsable(init[i]) {
      var i :| 0 <= i < |init| && Unparsable(init[i]);
      assert rows[i] == init[i];
    }
    if exists i | 0 <= i < |rows| :: Unparsable(rows[i]) {
      var i :| 0 <= i < |rows| && Unparsable(rows[i]);
      if i < |init| {
        assert init[i] == rows[i];
      }
    }
  }

  /** On success, the list has one entry per four-field row, in row order:
      the fourth field as the name and the third, as whole megabytes. */
  lemma {:induction false} DiskRowsEntries(rows: seq<string>)
    requires DiskRows(rows).Success?
    ensures var disks := DiskRows(rows).value;
            var f := FourFieldRows(rows);
            && |disks| == |f|
            && forall k | 0 <= k < |f| ::
                 && disks[k].name == Split(f[k])[3]
                 && ParseInt(Split(f[k])[2]).Some?
                 && disks[k].sizeMb == ParseInt(Split(f[k])[2]).value / 1024
    decreases |rows|
  {
    if rows != [] {
      DiskRowsEntries(rows[..|rows| - 1]);
    }
  }

  /** Every entry comes from a four-field line past the two header lines. */
  lemma HeaderNeverListed(lines: seq<string>)
    requires DiskInfo(lines).Success?
    ensures forall d | d in DiskInfo(lines).value ::
              exists i | 2 <= i < |lines| :: HasFourFields(lines[i]) && d.name == Split(lines[i])[3]
  {
    var rows := AfterHeader(lines);
    var disks := DiskRows(rows).value;
    var f := FourFieldRows(rows);
    forall d | d in disks
      ensures exists i | 2 <= i < |lines| :: HasFourFields(lines[i]) && d.name == Split(lines[i])[3]
    {
      var k :| 0 <= k < |disks| && disks[k] == d;
      assert f[k] in rows && HasFourFields(f[k]) && d.name == Split(f[k])[3] by {
        DiskRowsEntries(rows);
      }
      var j :| 0 <= j < |rows| && rows[j] == f[k];
      assert lines[2 + j] == rows[j];
    }
  }

  /** A row `<major> <minor> <blocks> <name>` lists `name` with
      `blocks // 1024` megabytes. */
  lemma RowOfFields(major: string, minor: string, blocks: nat, name: string)
    requires major != [] && NoSpace(major) && minor != [] && NoSpace(minor)
    requires name != [] && NoSpace(name)
    ensures RowEntry(JoinSpaced([major, minor, ToDecimal(blocks), name])) == Success(Some(Disk(name, blocks / 1024)))
  {
    var words := [major, minor, ToDecimal(blocks), name];
    SplitJoinSpaced(words);
    ParseIntToDecimal(blocks);
  }

  /** The same row with any whitespace runs around and between the fields,
      as the kernel pads its columns and ends the line. */
  lemma RowOfSpacedFields(gaps: seq<string>, major: string, minor: string, blocks: nat, name: string)
    requires Gaps(gaps, 4) && Words([major, minor, ToDecimal(blocks), name])
    ensures RowEntry(Spaced(gaps, [major, minor, ToDecimal(blocks), name])) == Success(Some(Disk(name, blocks / 1024)))
  {
    SplitSpaced(gaps, [major, minor, ToDecimal(blocks), name]);
    ParseIntToDecimal(blocks);
  }
}
