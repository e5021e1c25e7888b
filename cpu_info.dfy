/**
  The CPU identity collector: it reads /proc/cpuinfo line by line, keeps the
  text after the colon of each "model name" line, and stops at the first
  "cpu MHz" line, whose value is the clock speed.
 */
module CpuInfo {
  import opened Wrappers
  import opened PyText

  const ModelLabel := "model name"
  const SpeedLabel := "cpu MHz"

  /** The collector's dictionary: `model` once a model line was seen, and the
      text that `speed` is converted from once the `cpu MHz` line was reached. */
  datatype CpuInfo = CpuInfo(model: Option<string>, speedText: Option<string>)

  /** `line.split(':')[1].strip()`: the text between the first and second
      colon, trimmed; IndexError when the line has no colon. */
  function ValueAfterColon(line: string): (r: Result<string, PyError>)
    ensures r.Failure? <==> ':' !in line
    ensures r.Failure? ==> r.error == IndexError
    ensures r.Success? ==> ':' !in r.value
  {
    var parts := SplitOn(line, ':');
    if |parts| < 2 then Failure(IndexError)
    else
      var v := Strip(parts[1]);
      assert ':' !in v by { StripInside(parts[1], ':'); }
      Success(v)
  }

  /** The value is the text between the first colon and the second one (or
      the end of the line), trimmed. */
  lemma ValueAfterColonBetween(before: string, value: string, rest: string)
    requires ':' !in before && ':' !in value
    requires rest == [] || rest[0] == ':'
    ensures ValueAfterColon(before + ":" + value + rest) == Success(Strip(value))
  {
    PieceAfterFirst(before, value, rest, ':');
  }

  /** The `model name` branch of the loop body. */
  function ModelStep(line: string, model: Option<string>): Result<Option<string>, PyError> {
    if Contains(line, ModelLabel) then
      match ValueAfterColon(line)
      case Success(v) => Success(Some(v))
      case Failure(e) => Failure(e)
    else Success(model)
  }

  /** What the loop body does with one line. */
  datatype Outcome =
    | Raise(error: PyError)   // an exception leaves the loop
    | Stop(info: CpuInfo)     // the `break` after the `cpu MHz` line
    | Continue(model: Option<string>)

  /** The `cpu MHz` branch of the loop body, once `model` is up to date. */
  function SpeedStep(line: string, model: Option<string>): Outcome {
    if !Contains(line, SpeedLabel) then Continue(model)
    else match ValueAfterColon(line)
      case Failure(e) => Raise(e)
      case Success(speed) => Stop(CpuInfo(model, Some(speed)))
  }

  /** The loop body on one line, `model` being what the dictionary holds. */
  function LineStep(line: string, model: Option<string>): Outcome {
    match ModelStep(line, model)
    case Failure(e) => Raise(e)
    case Success(model') => SpeedStep(line, model')
  }

  /** The collector's loop from `lines[0]` on, `model` being what the
      dictionary holds so far. */
  function Scan(lines: seq<string>, model: Option<string>): Result<CpuInfo, PyError>
    decreases |lines|
  {
    if lines == [] then Success(CpuInfo(model, None))
    else match LineStep(lines[0], model)
      case Raise(e) => Failure(e)
      case Stop(info) => Success(info)
      case Continue(model') => Scan(lines[1..], model')
  }

  /** The loop from line `i` on is the loop body on line `i`, then the loop
      from line `i + 1` on. */
  lemma ScanAt(lines: seq<string>, i: nat, model: Option<string>)
    requires i < |lines|
    ensures Scan(lines[i..], model)
         == match LineStep(lines[i], model)
            case Raise(e) => Failure(e)
            case Stop(info) => Success(info)
            case Continue(model') => Scan(lines[i + 1..], model')
  {
    assert lines[i..][0] == lines[i] && lines[i..][1..] == lines[i + 1..];
  }

  /** How many lines the loop reads: up to and including the first `cpu MHz`
      line, or all of them. */
  function ScanLength(lines: seq<string>): (n: nat)
    ensures n <= |lines|
  {
    var stop := FirstWith(lines, SpeedLabel);
    if stop < |lines| then stop + 1 else |lines|
  }

  /** A line the loop takes a value from. */
  predicate Labelled(line: string) {
    Contains(line, ModelLabel) || Contains(line, SpeedLabel)
  }

  /** The collector over the lines of /proc/cpuinfo. */
  method GetCpuInfo(lines: seq<string>) returns (r: Result<CpuInfo, PyError>)
    ensures r == Scan(lines, None)
  {
    var model: Option<string> := None;
    var i := 0;
    while i < |lines|
      invariant 0 <= i <= |lines|
      invariant Scan(lines[i..], model) == Scan(lines, None)
    {
      var line := lines[i];
      ScanAt(lines, i, model);
      if Contains(line, ModelLabel) {
        var parts := SplitOn(line, ':');
        if |parts| < 2 {
          return Failure(IndexError);
        }
        model := Some(Strip(parts[1]));
      }
      if Contains(line, SpeedLabel) {
        var parts := SplitOn(line, ':');
        if |parts| < 2 {
          return Failure(IndexError);
        }
        return Success(CpuInfo(model, Some(Strip(parts[1]))));
      }
      i := i + 1;
    }
    return Success(CpuInfo(model, None));
  }

  /** On success, the model is the value of the last `model name` line among
      the lines read (the one held before when there is none). */
  lemma {:induction false} ScanModel(lines: seq<string>, model: Option<string>)
    requires Scan(lines, model).Success?
    ensures var info := Scan(lines, model).value;
            var last := LastWith(lines[..ScanLength(lines)], ModelLabel);
            && (last < 0 ==> info.model == model)
            && (0 <= last ==> ValueAfterColon(lines[last]).Success?
                              && info.model == Some(ValueAfterColon(lines[last]).value))
    decreases |lines|
  {
    if lines != [] {
      var line := lines[0];
      var n := ScanLength(lines);
      match LineStep(line, model)
      case Stop(info) =>
        assert LastWith(lines[..n], ModelLabel) == (if Contains(line, ModelLabel) then 0 else -1) by {
          assert n == 1;
          assert lines[..n] == [line] && [line][1..] == [];
        }
      case Continue(model') =>
        var rest := lines[1..];
        var m := ScanLength(rest);
        assert Scan(lines, model) == Scan(rest, model');
        ScanModel(rest, model');
        var last' := LastWith(rest[..m], ModelLabel);
        assert LastWith(lines[..n], ModelLabel)
            == if last' >= 0 then last' + 1 else if Contains(line, ModelLabel) then 0 else -1
        by {
          ScanLengthStep(lines);
          assert lines[..n][1..] == rest[..m];
        }
        if last' >= 0 {
          assert lines[last' + 1] == rest[last'];
        }
    }
  }

  /** On success, a speed is there exactly when a `cpu MHz` line ended the
      loop, and it is taken from that line. */
  lemma {:induction false} ScanSpeed(lines: seq<string>, model: Option<string>)
    requires Scan(lines, model).Success?
    ensures var info := Scan(lines, model).value;
            && (info.speedText.Some? <==> FirstWith(lines, SpeedLabel) < |lines|)
            && (info.speedText.Some? ==> ValueAfterColon(lines[ScanLength(lines) - 1]) == Success(info.speedText.value))
    decreases |lines|
  {
    if lines != [] {
      var line := lines[0];
      match LineStep(line, model)
      case Stop(info) =>
      case Continue(model') =>
        assert Scan(lines, model) == Scan(lines[1..], model');
        ScanSpeed(lines[1..], model');
        ScanLengthStep(lines);
    }
  }

  /** A line the loop raises IndexError on: a label but no colon. */
  predicate Unparsable(line: string) {
    Labelled(line) && ':' !in line
  }

  /** The loop raises exactly when one of the lines it reads carries a label
      but no colon, and what it raises is then IndexError. */
  lemma {:induction false} ScanFails(lines: seq<string>, model: Option<string>)
    ensures Scan(lines, model).Failure?
        <==> exists i | 0 <= i < ScanLength(lines) :: Unparsable(lines[i])
    ensures Scan(lines, model).Failure? ==> Scan(lines, model).error == IndexError
    decreases |lines|
  {
    if lines != [] {
      var line := lines[0];
      if Unparsable(line) {
        assert Scan(lines, model).Failure?;
        assert 0 < ScanLength(lines);
      } else if Contains(line, SpeedLabel) {
        assert ScanLength(lines) == 1;
      } else {
        var model' := ModelStep(line, model).value;
        assert Scan(lines, model) == Scan(lines[1..], model');
        ScanFails(lines[1..], model');
        ScanLengthStep(lines);
        ShiftUnparsable(lines, ScanLength(lines));
      }
    }
  }

  lemma ScanLengthStep(lines: seq<string>)
    requires lines != [] && !Contains(lines[0], SpeedLabel)
    ensures ScanLength(lines) == 1 + ScanLength(lines[1..])
  {
  }

  lemma ShiftUnparsable(lines: seq<string>, n: nat)
    requires 1 <= n <= |lines| && !Unparsable(lines[0])
    ensures (exists i | 0 <= i < n :: Unparsable(lines[i]))
        <==> (exists i | 0 <= i < n - 1 :: Unparsable(lines[1..][i]))
  {
    if exists i | 0 <= i < n :: Unparsable(lines[i]) {
      var i :| 0 <= i < n && Unparsable(lines[i]);
      assert Unparsable(lines[1..][i - 1]);
    }
    if exists i | 0 <= i < n - 1 :: Unparsable(lines[1..][i]) {
      var i :| 0 <= i < n - 1 && Unparsable(lines[1..][i]);
      assert Unparsable(lines[i + 1]);
    }
  }
}
