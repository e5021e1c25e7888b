/**
  The network-adapter collector: for each interface row of /proc/net/dev
  after the two header lines, it takes the first field without its `:` as
  the interface name, and pairs the name with the first field (the address)
  of every line of /proc/net/if_inet6 that contains the name anywhere as a
  substring. The result is ordered by interface row, then by if_inet6 line.
 */
module NetworkAdapters {
  import opened Wrappers
  import opened PyText

  /** One `(iface, ip)` tuple of the collector's list. */
  datatype Adapter = Adapter(iface: string, address: string)

  /** `line.split()[0].replace(':', '')`: an IndexError on a blank row. */
  function IfaceName(line: string): (r: Result<string, PyError>)
    ensures r.Failure? <==> Split(line) == []
    ensures r.Failure? ==> r.error == IndexError
    ensures r.Success? ==> ':' !in r.value
  {
    var words := Split(line);
    if words == [] then Failure(IndexError) else Success(RemoveChar(words[0], ':'))
  }

  /** A row `<indent><name>: <counters>` is listed under `name`. */
  lemma IfaceNameOfRow(indent: string, name: string, sp: char, counters: string)
    requires AllSpace(indent) && IsSpace(sp)
    requires name != [] && NoSpace(name) && ':' !in name
    ensures IfaceName(indent + name + ":" + [sp] + counters) == Success(name)
  {
    SplitIndentedWord(indent, name + ":", [sp] + counters);
    assert indent + name + ":" + [sp] + counters == indent + (name + ":") + ([sp] + counters);
    RemoveCharConcat(name, ":", ':');
    assert RemoveChar(":", ':') == [];
    assert name + [] == name;
  }

  /** A line the inner loop picks for `iface` but cannot split. */
  predicate BlankMatch(iface: string, l: string) {
    Contains(l, iface) && Split(l) == []
  }

  /** The inner loop over the if_inet6 lines `inet6`, for one interface. */
  function Matches(iface: string, inet6: seq<string>): Result<seq<Adapter>, PyError>
  {
    if inet6 == [] then Success([])
    else MatchStep(Matches(iface, inet6[..|inet6| - 1]), iface, inet6[|inet6| - 1])
  }

  /** One pass of the inner loop, on the if_inet6 line `l`. */
  function MatchStep(found: Result<seq<Adapter>, PyError>, iface: string, l: string): Result<seq<Adapter>, PyError>
  {
    var adapters :- found;
    if Contains(l, iface) then
      var words := Split(l);
      if words == [] then Failure(IndexError) else Success(adapters + [Adapter(iface, words[0])])
    else Success(adapters)
  }

  /** One pass of the outer loop: the row's entries after those listed so far. */
  function AddRow(listed: Result<seq<Adapter>, PyError>, row: string, inet6: seq<string>): Result<seq<Adapter>, PyError>
  {
    var adapters :- listed;
    var iface :- IfaceName(row);
    var found :- Matches(iface, inet6);
    Success(adapters + found)
  }

  /** The outer loop over the interface rows. */
  function AdapterRows(rows: seq<string>, inet6: seq<string>): Result<seq<Adapter>, PyError>
  {
    if rows == [] then Success([])
    else AddRow(AdapterRows(rows[..|rows| - 1], inet6), rows[|rows| - 1], inet6)
  }

  /** The collector's result for the lines of /proc/net/dev and of
      /proc/net/if_inet6. */
  function NetworkAdapters(dev: seq<string>, inet6: seq<string>): Result<seq<Adapter>, PyError> {
    AdapterRows(AfterHeader(dev), inet6)
  }

  /** Once the if_inet6 lines read so far have raised, so has the inner loop. */
  lemma {:induction false} MatchesFailurePersists(iface: string, inet6: seq<string>, n: nat)
    requires n <= |inet6| && Matches(iface, inet6[..n]).Failure?
    ensures Matches(iface, inet6) == Matches(iface, inet6[..n])
    decreases |inet6|
  {
    if n < |inet6| {
      var init := inet6[..|inet6| - 1];
      assert init[..n] == inet6[..n];
      MatchesFailurePersists(iface, init, n);
    } else {
      assert inet6[..n] == inet6;
    }
  }

  /** Once the rows read so far have raised, so has the outer loop. */
  lemma {:induction false} RowsFailurePersists(rows: seq<string>, inet6: seq<string>, n: nat)
    requires n <= |rows| && AdapterRows(rows[..n], inet6).Failure?
    ensures AdapterRows(rows, inet6) == AdapterRows(rows[..n], inet6)
    decreases |rows|
  {
    if n < |rows| {
      var init := rows[..|rows| - 1];
      assert init[..n] == rows[..n];
      RowsFailurePersists(init, inet6, n);
    } else {
      assert rows[..n] == rows;
    }
  }

  /** The collector: the outer loop over the interface rows, the inner one
      over the if_inet6 lines, both appending to one list. */
  method GetNetworkAdapters(dev: seq<string>, inet6: seq<string>) returns (r: Result<seq<Adapter>, PyError>)
    ensures r == NetworkAdapters(dev, inet6)
  {
    var rows := AfterHeader(dev);
    var adapters: seq<Adapter> := [];
    for i := 0 to |rows|
      invariant AdapterRows(rows[..i], inet6) == Success(adapters)
    {
      assert AdapterRows(rows[..i + 1], inet6) == AddRow(Success(adapters), rows[i], inet6) by {
        RowsStep(rows, inet6, i);
      }
      var words := Split(rows[i]);
      if words == [] {
        assert AdapterRows(rows, inet6) == Failure(IndexError) by {
          RowsFailurePersists(rows, inet6, i + 1);
        }
        return Failure(IndexError);
      }
      var iface := RemoveChar(words[0], ':');
      ghost var before := adapters;
      for j := 0 to |inet6|
        invariant Matches(iface, inet6[..j]).Success?
        invariant adapters == before + Matches(iface, inet6[..j]).value
      {
        assert Matches(iface, inet6[..j + 1]) == MatchStep(Matches(iface, inet6[..j]), iface, inet6[j]) by {
          MatchesStep(iface, inet6, j);
        }
        var l := inet6[j];
        if Contains(l, iface) {
          var fields := Split(l);
          if fields == [] {
            assert Matches(iface, inet6) == Failure(IndexError) by {
              MatchesFailurePersists(iface, inet6, j + 1);
            }
            assert AdapterRows(rows, inet6) == Failure(IndexError) by {
              RowsFailurePersists(rows, inet6, i + 1);
            }
            return Failure(IndexError);
          }
          adapters := adapters + [Adapter(iface, fields[0])];
        }
      }
      assert inet6[..|inet6|] == inet6;
    }
    assert rows[..|rows|] == rows;
    return Success(adapters);
  }

  lemma MatchesStep(iface: string, inet6: seq<string>, j: nat)
    requires j < |inet6|
    ensures Matches(iface, inet6[..j + 1]) == MatchStep(Matches(iface, inet6[..j]), iface, inet6[j])
  {
    assert inet6[..j + 1][..j] == inet6[..j];
  }

  lemma RowsStep(rows: seq<string>, inet6: seq<string>, i: nat)
    requires i < |rows|
    ensures AdapterRows(rows[..i + 1], inet6) == AddRow(AdapterRows(rows[..i], inet6), rows[i], inet6)
  {
    assert rows[..i + 1][..i] == rows[..i];
  }

  // ---------------------------------------------------------------------
  // Properties
  // ---------------------------------------------------------------------

  /** The if_inet6 lines containing `iface`, in order: a reference definition
      independent of the splitting. */
  function Containing(inet6: seq<string>, iface: string): (f: seq<string>)
    ensures |f| <= |inet6|
    ensures forall k | 0 <= k < |f| :: Contains(f[k], iface) && f[k] in inet6
  {
    if inet6 == [] then []
    else
      var l := inet6[|inet6| - 1];
      var prefix := Containing(inet6[..|inet6| - 1], iface);
      if Contains(l, iface) then prefix + [l] else prefix
  }

  /** The inner loop raises exactly when a line containing the name has no
      field; otherwise it yields one entry per such line, in order, holding
      that line's first field. */
  lemma {:induction false} MatchesSpec(iface: string, inet6: seq<string>)
    ensures Matches(iface, inet6).Failure? <==> exists j | 0 <= j < |inet6| :: BlankMatch(iface, inet6[j])
    ensures Matches(iface, inet6).Success? ==>
              var found := Matches(iface, inet6).value;
              var f := Containing(inet6, iface);
              && |found| == |f|
              && forall k | 0 <= k < |f| :: Split(f[k]) != [] && found[k] == Adapter(iface, Split(f[k])[0])
    decreases |inet6|
  {
    if inet6 != [] {
      var init := inet6[..|inet6| - 1];
      MatchesSpec(iface, init);
      if exists j | 0 <= j < |init| :: BlankMatch(iface, init[j]) {
        var j :| 0 <= j < |init| && BlankMatch(iface, init[j]);
        assert inet6[j] == init[j];
      }
      if exists j | 0 <= j < |inet6| :: BlankMatch(iface, inet6[j]) {
        var j :| 0 <= j < |inet6| && BlankMatch(iface, inet6[j]);
        if j < |init| {
          assert init[j] == inet6[j];
        }
      }
    }
  }

  /** Some line of `inet6` contains `name` and has `address` as its first field. */
  predicate AddressOf(inet6: seq<string>, name: string, address: string) {
    exists j | 0 <= j < |inet6| :: Contains(inet6[j], name) && Split(inet6[j]) != [] && address == Split(inet6[j])[0]
  }

  /** Some row of `rows` names the interface `name`. */
  predicate NamedBy(rows: seq<string>, name: string) {
    exists i | 0 <= i < |rows| :: IfaceName(rows[i]) == Success(name)
  }

  /** An entry of the inner loop's list is the name paired with the first
      field of a line containing it, and every such line gives one. */
  lemma MatchesMembers(iface: string, inet6: seq<string>, a: Adapter)
    requires Matches(iface, inet6).Success?
    ensures a in Matches(iface, inet6).value <==> a.iface == iface && AddressOf(inet6, iface, a.address)
  {
    var found := Matches(iface, inet6).value;
    var f := Containing(inet6, iface);
    MatchesSpec(iface, inet6);
    if a in found {
      var k :| 0 <= k < |found| && found[k] == a;
      var j :| 0 <= j < |inet6| && inet6[j] == f[k];
      assert Contains(inet6[j], iface) && Split(inet6[j]) != [] && a.address == Split(inet6[j])[0];
    }
    if a.iface == iface && AddressOf(inet6, iface, a.address) {
      var j :| 0 <= j < |inet6| && Contains(inet6[j], iface) && Split(inet6[j]) != [] && a.address == Split(inet6[j])[0];
      ContainingComplete(inet6, iface, j);
      var k :| 0 <= k < |f| && f[k] == inet6[j];
      assert found[k] == a;
    }
  }

  /** Every line containing the name is kept by `Containing`. */
  lemma {:induction false} ContainingComplete(inet6: seq<string>, iface: string, j: nat)
    requires j < |inet6| && Contains(inet6[j], iface)
    ensures inet6[j] in Containing(inet6, iface)
    decreases |inet6|
  {
    if j < |inet6| - 1 {
      var init := inet6[..|inet6| - 1];
      assert init[j] == inet6[j];
      ContainingComplete(init, iface, j);
    }
  }

  /** One row contributes exactly the inner loop's entries for its name, or
      the IndexError of a blank row. */
  lemma RowsOne(row: string, inet6: seq<string>)
    ensures IfaceName(row).Failure? ==> AdapterRows([row], inet6) == Failure(IndexError)
    ensures IfaceName(row).Success? ==>
              AdapterRows([row], inet6) == Matches(IfaceName(row).value, inet6)
  {
    assert [row][..0] == [];
    if IfaceName(row).Success? {
      var found := Matches(IfaceName(row).value, inet6);
      if found.Success? {
        assert [] + found.value == found.value;
      }
    }
  }

  /** Reading the rows of `a` then those of `b` lists `a`'s adapters before
      `b`'s: the list is ordered by interface row. */
  lemma {:induction false} RowsConcat(a: seq<string>, b: seq<string>, inet6: seq<string>)
    ensures AdapterRows(a + b, inet6).Success? <==>
              AdapterRows(a, inet6).Success? && AdapterRows(b, inet6).Success?
    ensures AdapterRows(a + b, inet6).Success? ==>
              AdapterRows(a + b, inet6).value == AdapterRows(a, inet6).value + AdapterRows(b, inet6).value
    decreases |b|
  {
    if b == [] {
      assert a + b == a;
    } else {
      var init, row := b[..|b| - 1], b[|b| - 1];
      RowsConcat(a, init, inet6);
      assert AdapterRows(a + b, inet6) == AddRow(AdapterRows(a + init, inet6), row, inet6) by {
        assert (a + b)[..|a + b| - 1] == a + init;
        assert (a + b)[|a + b| - 1] == row;
      }
      if AdapterRows(a, inet6).Success? && AdapterRows(init, inet6).Success? {
        AddRowAfter(AdapterRows(a, inet6).value, AdapterRows(init, inet6).value, row, inet6);
      }
    }
  }

  /** A row's entries do not depend on the entries listed before it. */
  lemma AddRowAfter(x: seq<Adapter>, y: seq<Adapter>, row: string, inet6: seq<string>)
    ensures AddRow(Success(x + y), row, inet6).Success? <==> AddRow(Success(y), row, inet6).Success?
    ensures AddRow(Success(y), row, inet6).Success? ==>
              AddRow(Success(x + y), row, inet6).value == x + AddRow(Success(y), row, inet6).value
  {
    if AddRow(Success(y), row, inet6).Success? {
      var found := Matches(IfaceName(row).value, inet6).value;
      assert x + y + found == x + (y + found);
    }
  }

  /** The rows naming an interface are those of the prefix and the last row. */
  lemma NamedByLast(rows: seq<string>, name: string)
    requires rows != []
    ensures NamedBy(rows, name) <==>
              NamedBy(rows[..|rows| - 1], name) || IfaceName(rows[|rows| - 1]) == Success(name)
  {
    var init := rows[..|rows| - 1];
    if NamedBy(init, name) {
      var i :| 0 <= i < |init| && IfaceName(init[i]) == Success(name);
      assert rows[i] == init[i];
    }
    if NamedBy(rows, name) {
      var i :| 0 <= i < |rows| && IfaceName(rows[i]) == Success(name);
      if i < |init| {
        assert init[i] == rows[i];
      }
    }
  }

  /** Over the rows after the header: the list holds exactly the pairs of a
      name some row gives and an address of a line containing that name. */
  lemma {:induction false} RowsMembers(rows: seq<string>, inet6: seq<string>, a: Adapter)
    requires AdapterRows(rows, inet6).Success?
    ensures a in AdapterRows(rows, inet6).value <==> NamedBy(rows, a.iface) && AddressOf(inet6, a.iface, a.address)
    decreases |rows|
  {
    if rows != [] {
      var init := rows[..|rows| - 1];
      var iface := IfaceName(rows[|rows| - 1]).value;
      RowsMembers(init, inet6, a);
      MatchesMembers(iface, inet6, a);
      NamedByLast(rows, a.iface);
      assert AdapterRows(rows, inet6).value == AdapterRows(init, inet6).value + Matches(iface, inet6).value;
    }
  }

  /** The list holds exactly the pairs of an interface named by a row after
      the header and the first field of an if_inet6 line containing that
      name. */
  lemma NetworkAdaptersMembers(dev: seq<string>, inet6: seq<string>, a: Adapter)
    requires NetworkAdapters(dev, inet6).Success?
    ensures a in NetworkAdapters(dev, inet6).value <==>
              && (exists i | 2 <= i < |dev| :: IfaceName(dev[i]) == Success(a.iface))
              && AddressOf(inet6, a.iface, a.address)
  {
    var rows := AfterHeader(dev);
    RowsMembers(rows, inet6, a);
    if NamedBy(rows, a.iface) {
      var i :| 0 <= i < |rows| && IfaceName(rows[i]) == Success(a.iface);
      assert dev[2 + i] == rows[i];
    }
    if exists i | 2 <= i < |dev| :: IfaceName(dev[i]) == Success(a.iface) {
      var i :| 2 <= i < |dev| && IfaceName(dev[i]) == Success(a.iface);
      assert rows[i - 2] == dev[i];
    }
  }

  /** A row that makes the collector raise: a blank row, or a row whose name
      some field-less if_inet6 line contains. */
  predicate RowFails(row: string, inet6: seq<string>) {
    || Split(row) == []
    || exists j | 0 <= j < |inet6| :: BlankMatch(IfaceName(row).value, inet6[j])
  }

  /** The collector raises (an IndexError) exactly when some row fails. */
  lemma {:induction false} RowsFail(rows: seq<string>, inet6: seq<string>)
    ensures AdapterRows(rows, inet6).Failure? <==> exists i | 0 <= i < |rows| :: RowFails(rows[i], inet6)
    ensures AdapterRows(rows, inet6).Failure? ==> AdapterRows(rows, inet6).error == IndexError
    decreases |rows|
  {
    if rows != [] {
      var init, last := rows[..|rows| - 1], rows[|rows| - 1];
      RowsFail(init, inet6);
      AddRowFails(AdapterRows(init, inet6), last, inet6);
      RowFailsSnoc(rows, inet6);
    }
  }

  /** A pass of the outer loop raises when an earlier one did or its row fails. */
  lemma AddRowFails(listed: Result<seq<Adapter>, PyError>, row: string, inet6: seq<string>)
    requires listed.Failure? ==> listed.error == IndexError
    ensures AddRow(listed, row, inet6).Failure? <==> listed.Failure? || RowFails(row, inet6)
    ensures AddRow(listed, row, inet6).Failure? ==> AddRow(listed, row, inet6).error == IndexError
  {
    if Split(row) != [] {
      MatchesSpec(IfaceName(row).value, inet6);
      MatchesError(IfaceName(row).value, inet6);
    }
  }

  /** Some row fails exactly when some row before the last does or the last does. */
  lemma RowFailsSnoc(rows: seq<string>, inet6: seq<string>)
    requires rows != []
    ensures var init := rows[..|rows| - 1];
            (exists i | 0 <= i < |rows| :: RowFails(rows[i], inet6))
              <==> (exists i | 0 <= i < |init| :: RowFails(init[i], inet6)) || RowFails(rows[|rows| - 1], inet6)
  {
    var init := rows[..|rows| - 1];
    if exists i | 0 <= i < |init| :: RowFails(init[i], inet6) {
      var i :| 0 <= i < |init| && RowFails(init[i], inet6);
      assert rows[i] == init[i];
    }
    if exists i | 0 <= i < |rows| :: RowFails(rows[i], inet6) {
      var i :| 0 <= i < |rows| && RowFails(rows[i], inet6);
      if i < |init| {
        assert init[i] == rows[i];
      }
    }
  }

  /** The inner loop only ever raises an IndexError. */
  lemma {:induction false} MatchesError(iface: string, inet6: seq<string>)
    ensures Matches(iface, inet6).Failure? ==> Matches(iface, inet6).error == IndexError
    decreases |inet6|
  {
    if inet6 != [] {
      MatchesError(iface, inet6[..|inet6| - 1]);
    }
  }
}
