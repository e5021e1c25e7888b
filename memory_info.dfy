/**
  The memory collector: it reads /proc/meminfo line by line, converts the
  kilobyte figure of each "MemTotal" line to megabytes, and at the first
  "MemAvailable" line computes the used megabytes and stops.
 */
module MemoryInfo {
  import opened Wrappers
  import opened PyText

  const TotalLabel := "MemTotal"
  const AvailableLabel := "MemAvailable"

  /** The collector's dictionary: `total` and `used`, in megabytes. */
  datatype MemInfo = MemInfo(total: Option<int>, used: Option<int>)

  /** `int(line.split()[1]) // 1024`: the line's second field, kilobytes, as
      whole megabytes. Python's `//` floors; for the positive divisor 1024 so
      does Dafny's `/`. */
  function SecondFieldMb(line: string): (r: Result<int, PyError>)
    ensures r.Success? <==> |Split(line)| >= 2 && ParseInt(Split(line)[1]).Some?
    ensures r.Failure? ==> (r.error == IndexError <==> |Split(line)| < 2)
    ensures r.Failure? ==> r.error != KeyError
    ensures r.Success? ==> r.value * 1024 <= ParseInt(Split(line)[1]).value < r.value * 1024 + 1024
  {
    var words := Split(line);
    if |words| < 2 then Failure(IndexError)
    else match ParseInt(words[1])
      case None => Failure(ValueError)
      case Some(kb) => Success(kb / 1024)
  }

  /** The `MemTotal` branch of the loop body. */
  function TotalStep(line: string, total: Option<int>): Result<Option<int>, PyError> {
    if Contains(line, TotalLabel) then
      match SecondFieldMb(line)
      case Success(mb) => Success(Some(mb))
      case Failure(e) => Failure(e)
    else Success(total)
  }

  /** What the loop body does with one line. */
  datatype Outcome =
    | Raise(error: PyError)   // an exception leaves the loop
    | Stop(info: MemInfo)     // the `break` after the `MemAvailable` line
    | Continue(total: Option<int>)

  /** The loop body on `line`, `total` being the dictionary's `total` entry
      so far. Reading `total` before any was stored is a KeyError, and it is
      read before the line's own figure is parsed. */
  function LineStep(line: string, total: Option<int>): Outcome {
    match TotalStep(line, total)
    case Failure(e) => Raise(e)
    case Success(total') => AvailableStep(line, total')
  }

  /** The `MemAvailable` branch of the loop body, once `total` is up to date. */
  function AvailableStep(line: string, total: Option<int>): Outcome {
    if !Contains(line, AvailableLabel) then Continue(total)
    else if total.None? then Raise(KeyError)
    else match SecondFieldMb(line)
      case Failure(e) => Raise(e)
      case Success(available) => Stop(MemInfo(total, Some(total.value - available)))
  }

  /** The collector's loop from `lines[0]` on. */
  function Scan(lines: seq<string>, total: Option<int>): Result<MemInfo, PyError>
    decreases |lines|
  {
    if lines == [] then Success(MemInfo(total, None))
    else match LineStep(lines[0], total)
      case Raise(e) => Failure(e)
      case Stop(info) => Success(info)
      case Continue(total') => Scan(lines[1..], total')
  }

  /** One pass of the loop body, at line `i`. */
  lemma ScanAt(lines: seq<string>, i: nat, total: Option<int>)
    requires i < |lines|
    ensures Scan(lines[i..], total) == match LineStep(lines[i], total)
      case Raise(e) => Failure(e)
      case Stop(info) => Success(info)
      case Continue(total') => Scan(lines[i + 1..], total')
  {
    assert lines[i..][0] == lines[i] && lines[i..][1..] == lines[i + 1..];
  }

  /** The collector over the lines of /proc/meminfo. */
  method GetMemoryInfo(lines: seq<string>) returns (r: Result<MemInfo, PyError>)
    ensures r == Scan(lines, None)
  {
    var total: Option<int> := None;
    var i := 0;
    while i < |lines|
      invariant 0 <= i <= |lines|
      invariant Scan(lines[i..], total) == Scan(lines, None)
    {
      var line := lines[i];
      ScanAt(lines, i, total);
      if Contains(line, TotalLabel) {
        var mb := SecondFieldMb(line);
        if mb.Failure? {
          return Failure(mb.error);
        }
        total := Some(mb.value);
      }
      if Contains(line, AvailableLabel) {
        if total.None? {
          return Failure(KeyError);
        }
        var mb := SecondFieldMb(line);
        if mb.Failure? {
          return Failure(mb.error);
        }
        return Success(MemInfo(total, Some(total.value - mb.value)));
      }
      i := i + 1;
    }
    return Success(MemInfo(total, None));
  }

  /** The lines the loop reads: up to and including the first `MemAvailable`
      line, or all of them. */
  function ScanLength(lines: seq<string>): (n: nat)
    ensures n <= |lines|
  {
    var a := FirstWith(lines, AvailableLabel);
    if a < |lines| then a + 1 else |lines|
  }

  /** On success, `total` is the megabyte figure of the last `MemTotal` line
      among the lines read (the one held before when there is none). */
  lemma {:induction false} ScanTotal(lines: seq<string>, total: Option<int>)
    requires Scan(lines, total).Success?
    ensures var info := Scan(lines, total).value;
            var last := LastWith(lines[..ScanLength(lines)], TotalLabel);
            && (last < 0 ==> info.total == total)
            && (0 <= last ==> SecondFieldMb(lines[last]).Success?
                              && info.total == Some(SecondFieldMb(lines[last]).value))
    decreases |lines|
  {
    if lines != [] {
      var line := lines[0];
      var n := ScanLength(lines);
      match LineStep(line, total)
      case Stop(info) =>
        assert LastWith(lines[..n], TotalLabel) == (if Contains(line, TotalLabel) then 0 else -1) by {
          assert n == 1;
          assert lines[..n] == [line] && [line][1..] == [];
        }
      case Continue(total') =>
        var rest := lines[1..];
        var m := ScanLength(rest);
        assert Scan(lines, total) == Scan(rest, total');
        ScanTotal(rest, total');
        var last' := LastWith(rest[..m], TotalLabel);
        assert LastWith(lines[..n], TotalLabel)
            == if last' >= 0 then last' + 1 else if Contains(line, TotalLabel) then 0 else -1
        by {
          ScanLengthStep(lines);
          assert lines[..n][1..] == rest[..m];
        }
        if last' >= 0 {
          assert lines[last' + 1] == rest[last'];
        }
    }
  }

  lemma ScanLengthStep(lines: seq<string>)
    requires lines != [] && !Contains(lines[0], AvailableLabel)
    ensures ScanLength(lines) == 1 + ScanLength(lines[1..])
  {
  }

  /** On success, `used` is there exactly when a `MemAvailable` line exists,
      and is then `total` minus the megabytes on the first such line. */
  lemma {:induction false} ScanUsed(lines: seq<string>, total: Option<int>)
    requires Scan(lines, total).Success?
    ensures var info := Scan(lines, total).value;
            var a := FirstWith(lines, AvailableLabel);
            && (info.used.Some? <==> a < |lines|)
            && (info.used.Some? ==> info.total.Some? && SecondFieldMb(lines[a]).Success?
                                    && info.used.value == info.total.value - SecondFieldMb(lines[a]).value)
    decreases |lines|
  {
    if lines != [] {
      var line := lines[0];
      var total' := TotalStep(line, total).value;
      if !Contains(line, AvailableLabel) {
        assert Scan(lines, total) == Scan(lines[1..], total');
        ScanUsed(lines[1..], total');
      }
    }
  }

  /** The loop raises KeyError exactly when a `MemAvailable` line comes before
      any `MemTotal` line (a line with both labels has a total). */
  lemma {:induction false} KeyErrorWhenNoTotal(lines: seq<string>)
    ensures var a := FirstWith(lines, AvailableLabel);
            (Scan(lines, None) == Failure(KeyError))
              <==> (a < |lines| && LastWith(lines[..a + 1], TotalLabel) < 0)
    decreases |lines|
  {
    if lines != [] {
      var line := lines[0];
      var a := FirstWith(lines, AvailableLabel);
      if Contains(line, TotalLabel) {
        if a < |lines| {
          var prefix := lines[..a + 1];
          assert prefix[0] == line;
          assert LastWith(prefix, TotalLabel) >= 0;
        }
        match TotalStep(line, None)
        case Failure(e) =>
        case Success(t) =>
          ScanWithTotalNoKeyError(lines[1..], t.value);
      } else if Contains(line, AvailableLabel) {
        assert lines[..1] == [line] && [line][1..] == [];
      } else {
        KeyErrorWhenNoTotal(lines[1..]);
        assert a == 1 + FirstWith(lines[1..], AvailableLabel);
        if a < |lines| {
          assert lines[..a + 1][1..] == lines[1..][..a];
        }
      }
    }
  }

  /** Once a total is held, the loop cannot raise KeyError. */
  lemma {:induction false} ScanWithTotalNoKeyError(lines: seq<string>, total: int)
    ensures Scan(lines, Some(total)) != Failure(KeyError)
    decreases |lines|
  {
    if lines != [] {
      match TotalStep(lines[0], Some(total))
      case Failure(e) =>
      case Success(t) =>
        if !Contains(lines[0], AvailableLabel) {
          ScanWithTotalNoKeyError(lines[1..], t.value);
        }
    }
  }

  /** A line the loop parses a figure from (it carries either label) whose
      second field does not read as kilobytes. */
  predicate Unreadable(line: string) {
    (Contains(line, TotalLabel) || Contains(line, AvailableLabel)) && SecondFieldMb(line).Failure?
  }

  /** No total is held when the first `MemAvailable` line is reached: none
      was held on entry and no line up to that one carries `MemTotal`. */
  predicate NoTotalAtAvailable(lines: seq<string>, total: Option<int>) {
    var a := FirstWith(lines, AvailableLabel);
    total.None? && a < |lines| && forall j | 0 <= j <= a :: !Contains(lines[j], TotalLabel)
  }

  /** The loop raises exactly when a line it reads carries a label and an
      unreadable figure, or when the `MemAvailable` line comes with no total
      held. An error other than KeyError is the one of such a line's figure. */
  lemma {:induction false} ScanFails(lines: seq<string>, total: Option<int>)
    ensures Scan(lines, total).Failure? <==>
              (exists i | 0 <= i < ScanLength(lines) :: Unreadable(lines[i]))
              || NoTotalAtAvailable(lines, total)
    ensures Scan(lines, total).Failure? && Scan(lines, total).error != KeyError ==>
              exists i | 0 <= i < ScanLength(lines) ::
                Unreadable(lines[i]) && Scan(lines, total).error == SecondFieldMb(lines[i]).error
    decreases |lines|
  {
    if lines != [] {
      var line := lines[0];
      if Contains(line, TotalLabel) && SecondFieldMb(line).Failure? {
        assert Unreadable(lines[0]) && 0 < ScanLength(lines);
      } else if Contains(line, AvailableLabel) {
        assert ScanLength(lines) == 1 && FirstWith(lines, AvailableLabel) == 0;
      } else {
        var total' := TotalStep(line, total).value;
        assert Scan(lines, total) == Scan(lines[1..], total');
        ScanFails(lines[1..], total');
        ScanLengthStep(lines);
        ShiftUnreadable(lines, ScanLength(lines), Scan(lines, total));
        NoTotalShift(lines, total);
      }
    }
  }

  lemma ShiftUnreadable(lines: seq<string>, n: nat, r: Result<MemInfo, PyError>)
    requires 1 <= n <= |lines| && !Unreadable(lines[0])
    ensures (exists i | 0 <= i < n :: Unreadable(lines[i]))
        <==> (exists i | 0 <= i < n - 1 :: Unreadable(lines[1..][i]))
    ensures r.Failure? ==>
              ((exists i | 0 <= i < n :: Unreadable(lines[i]) && r.error == SecondFieldMb(lines[i]).error)
               <==> (exists i | 0 <= i < n - 1 ::
                       Unreadable(lines[1..][i]) && r.error == SecondFieldMb(lines[1..][i]).error))
  {
    forall i | 0 < i < n
      ensures lines[i] == lines[1..][i - 1]
    {
    }
  }

  lemma NoTotalShift(lines: seq<string>, total: Option<int>)
    requires lines != [] && !Contains(lines[0], AvailableLabel)
    requires TotalStep(lines[0], total).Success?
    ensures NoTotalAtAvailable(lines, total) <==>
              NoTotalAtAvailable(lines[1..], TotalStep(lines[0], total).value)
  {
    var a := FirstWith(lines, AvailableLabel);
    assert a == 1 + FirstWith(lines[1..], AvailableLabel);
    forall j | 0 < j <= a && j < |lines|
      ensures lines[j] == lines[1..][j - 1]
    {
    }
  }

  lemma SpacedLine(x: string, y: string, z: string)
    ensures x + " " + y + " " + z == JoinSpaced([x, y, z])
  {
    assert [x, y, z][1..] == [y, z];
    assert [y, z][1..] == [z];
    assert JoinSpaced([y, z]) == y + " " + z;
    assert x + " " + (y + " " + z) == x + " " + y + " " + z;
  }

  /** `<name> <n> kB` carries `n // 1024` megabytes. */
  lemma SecondFieldMbOfLine(name: string, n: nat)
    requires name != [] && NoSpace(name)
    ensures SecondFieldMb(name + " " + ToDecimal(n) + " kB") == Success(n / 1024)
  {
    var digits := ToDecimal(n);
    assert NoSpace(digits) && NoSpace("kB");
    SpacedLine(name, digits, "kB");
    SplitJoinSpaced([name, digits, "kB"]);
    assert name + " " + digits + " kB" == name + " " + digits + " " + "kB";
    ParseIntToDecimal(n);
  }

  /** A line whose second whitespace-separated field is the number `n`
      carries `n // 1024` megabytes, however the fields are spaced. */
  lemma SecondFieldMbOfFields(gaps: seq<string>, words: seq<string>, n: nat)
    requires Gaps(gaps, |words|) && Words(words)
    requires |words| >= 2 && words[1] == ToDecimal(n)
    ensures SecondFieldMb(Spaced(gaps, words)) == Success(n / 1024)
  {
    SplitSpaced(gaps, words);
    ParseIntToDecimal(n);
  }

  /** The line `<name> <n> kB` has no character that neither `name`, the
      digits nor ` kB` have. */
  lemma CharNotInLine(name: string, n: nat, c: char)
    requires c !in name && !IsDigit(c) && c !in " kB"
    ensures c !in name + " " + ToDecimal(n) + " kB"
  {
    var digits := ToDecimal(n);
    assert c !in digits;
  }

  /** `MemTotal: <t> kB` has the total label only, and `t // 1024` megabytes. */
  lemma TotalLine(t: nat)
    ensures var line := "MemTotal: " + ToDecimal(t) + " kB";
            && Contains(line, TotalLabel) && !Contains(line, AvailableLabel)
            && SecondFieldMb(line) == Success(t / 1024)
  {
    var line := "MemTotal: " + ToDecimal(t) + " kB";
    assert !Contains(line, AvailableLabel) by {
      CharNotInLine("MemTotal:", t, 'A');
      NotContainedWithout(line, AvailableLabel, 'A');
    }
    assert OccursAt(line, TotalLabel, 0);
    assert "MemTotal: " == "MemTotal:" + " ";
    SecondFieldMbOfLine("MemTotal:", t);
  }

  /** `MemAvailable: <a> kB` has the available label only, and `a // 1024` megabytes. */
  lemma AvailableLine(a: nat)
    ensures var line := "MemAvailable: " + ToDecimal(a) + " kB";
            && Contains(line, AvailableLabel) && !Contains(line, TotalLabel)
            && SecondFieldMb(line) == Success(a / 1024)
  {
    var line := "MemAvailable: " + ToDecimal(a) + " kB";
    assert !Contains(line, TotalLabel) by {
      CharNotInLine("MemAvailable:", a, 'T');
      NotContainedWithout(line, TotalLabel, 'T');
    }
    assert OccursAt(line, AvailableLabel, 0);
    assert "MemAvailable: " == "MemAvailable:" + " ";
    SecondFieldMbOfLine("MemAvailable:", a);
  }

  /** A line with the available label and a figure ends the loop with `used`. */
  lemma AvailableStepStops(line: string, total: int, available: int)
    requires Contains(line, AvailableLabel) && SecondFieldMb(line) == Success(available)
    ensures AvailableStep(line, Some(total)) == Stop(MemInfo(Some(total), Some(total - available)))
  {
  }

  /** A total line followed by an available line. */
  lemma ScanTwoLines(first: string, second: string, total: int, available: int)
    requires Contains(first, TotalLabel) && !Contains(first, AvailableLabel)
    requires Contains(second, AvailableLabel) && !Contains(second, TotalLabel)
    requires SecondFieldMb(first) == Success(total) && SecondFieldMb(second) == Success(available)
    ensures Scan([first, second], None) == Success(MemInfo(Some(total), Some(total - available)))
  {
    assert LineStep(first, None) == Continue(Some(total)) by {
      assert TotalStep(first, None) == Success(Some(total));
      assert AvailableStep(first, Some(total)) == Continue(Some(total));
    }
    assert LineStep(second, Some(total)) == Stop(MemInfo(Some(total), Some(total - available))) by {
      assert TotalStep(second, Some(total)) == Success(Some(total));
      AvailableStepStops(second, total, available);
    }
    assert Scan([first, second], None) == Scan([second], Some(total)) by {
      assert [first, second][1..] == [second];
    }
  }

  /** The lines `MemTotal: <t> kB` and `MemAvailable: <a> kB` give
      `total = t // 1024` and `used = t // 1024 - a // 1024`. */
  lemma MemInfoOfTwoLines(t: nat, a: nat)
    ensures Scan(["MemTotal: " + ToDecimal(t) + " kB", "MemAvailable: " + ToDecimal(a) + " kB"], None)
         == Success(MemInfo(Some(t / 1024), Some(t / 1024 - a / 1024)))
  {
    var first := "MemTotal: " + ToDecimal(t) + " kB";
    var second := "MemAvailable: " + ToDecimal(a) + " kB";
    var total, available := t / 1024, a / 1024;
    assert Scan([first, second], None) == Success(MemInfo(Some(total), Some(total - available))) by {
      TotalLine(t);
      AvailableLine(a);
      ScanTwoLines(first, second, total, available);
    }
  }

  /** 8000000 kB total and 2000000 kB available give 7812 MB total and 5859 MB used. */
  lemma MemInfoExample()
    ensures Scan(["MemTotal: " + ToDecimal(8000000) + " kB", "MemAvailable: " + ToDecimal(2000000) + " kB"], None)
         == Success(MemInfo(Some(7812), Some(5859)))
  {
    assert 8000000 / 1024 == 7812 && 2000000 / 1024 == 1953;
    MemInfoOfTwoLines(8000000, 2000000);
  }

  /** A /proc/meminfo line as the kernel writes it, `<label><padding><n> kB`
      and the line end, carries `n // 1024` megabytes. */
  lemma SecondFieldMbOfPaddedLine(name: string, pad: string, n: nat)
    requires name != [] && NoSpace(name) && pad != [] && AllSpace(pad)
    ensures SecondFieldMb(name + pad + ToDecimal(n) + " kB\n") == Success(n / 1024)
  {
    var digits := ToDecimal(n);
    var gaps, words := ["", pad, " ", "\n"], [name, digits, "kB"];
    assert Gaps(gaps, 3) && Words(words) by {
      assert NoSpace(digits);
    }
    assert Spaced(gaps[2..], words[2..]) == " kB\n";
    assert Spaced(gaps[1..], words[1..]) == pad + digits + " kB\n";
    assert Spaced(gaps, words) == name + pad + digits + " kB\n";
    SecondFieldMbOfFields(gaps, words, n);
  }
}
