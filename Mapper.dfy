/**
 * The map phase: one task per input line, then the results collected in
 * submission order.
 *
 * `Mapper` is abstract over its `map` operation, which a subclass supplies;
 * here it is the function `mapLine`, given when the mapper is built.  The
 * executor's tasks are evaluated one after another in submission order, and
 * each future is represented by the outcome that waiting on it reports: the
 * pair `map` returned, `null`, or the exception `map` threw.
 */
module Mapper {
  import opened JavaString
  import opened Pairs

  /** What `future.get()` reports for one task. */
  datatype MapOutcome<K, V> =
    | Returned(pair: Pair<K, V>)  // `map` returned a pair
    | ReturnedNull                 // `map` returned null
    | Threw                        // `map` threw

  /** What `execute` does: return the output list, or throw because the executor was shut down. */
  datatype ExecuteResult<K, V> = Ok(pairs: seq<Pair<K, V>>) | RejectedExecution

  /** The outcomes of mapping each line, in submission order. */
  ghost function Outcomes<K, V>(mapLine: JString -> MapOutcome<K, V>, lines: seq<JString>): seq<MapOutcome<K, V>>
  {
    seq(|lines|, i requires 0 <= i < |lines| => mapLine(lines[i]))
  }

  /** The pairs `collectResults` keeps from `os`: the returned pairs, in order. */
  ghost function Collected<K, V>(os: seq<MapOutcome<K, V>>): (ps: seq<Pair<K, V>>)
    ensures |ps| <= |os|
  {
    if os == [] then []
    else (if os[0].Returned? then [os[0].pair] else []) + Collected(os[1..])
  }

  /** Collecting two runs of outcomes one after the other collects each in turn. */
  lemma {:induction false} CollectedAppend<K, V>(a: seq<MapOutcome<K, V>>, b: seq<MapOutcome<K, V>>)
    ensures Collected(a + b) == Collected(a) + Collected(b)
  {
    if a == [] {
      assert a + b == b;
    } else {
      var head := if a[0].Returned? then [a[0].pair] else [];
      assert (a + b)[0] == a[0] && (a + b)[1..] == a[1..] + b;
      assert Collected(a + b) == head + Collected(a[1..] + b);
      CollectedAppend(a[1..], b);
      assert Collected(a) == head + Collected(a[1..]);
    }
  }

  /**
   * One outcome adds its pair if it is one and nothing otherwise: a null
   * result is dropped, a failed task is skipped, and collecting goes on with
   * the outcomes after it.
   */
  lemma CollectedSkips<K, V>(a: seq<MapOutcome<K, V>>, o: MapOutcome<K, V>, b: seq<MapOutcome<K, V>>)
    ensures Collected(a + [o] + b) == Collected(a) + (if o.Returned? then [o.pair] else []) + Collected(b)
  {
    CollectedAppend(a + [o], b);
    CollectedAppend(a, [o]);
    assert Collected([o]) == (if o.Returned? then [o.pair] else []) + Collected([o][1..]);
  }

  /** A pair is collected exactly when some task returned it. */
  lemma {:induction false} CollectedMembers<K, V>(os: seq<MapOutcome<K, V>>, p: Pair<K, V>)
    ensures p in Collected(os) <==> Returned(p) in os
  {
    if os != [] {
      CollectedMembers(os[1..], p);
      assert os == [os[0]] + os[1..];
    }
  }

  /** Nothing is lost exactly when every task returned a pair. */
  lemma {:induction false} CollectedAll<K, V>(os: seq<MapOutcome<K, V>>)
    ensures |Collected(os)| == |os| <==> forall i :: 0 <= i < |os| ==> os[i].Returned?
  {
    if os != [] {
      CollectedAll(os[1..]);
      assert forall i :: 1 <= i < |os| ==> os[i] == os[1..][i - 1];
    }
  }

  /**
   * Mapping the lines "x", "skip", "bad", "y" with a `map` that returns null
   * for "skip", throws for "bad" and pairs every other line with its length
   * collects ("x", 1) and ("y", 1), in that order.
   */
  lemma CollectExample()
    ensures
      var x, skip, bad, y: JString := [120], [115, 107, 105, 112], [98, 97, 100], [121];
      var mapLine := (line: JString) =>
        if line == skip then ReturnedNull else if line == bad then Threw else Returned(Pair(line, |line|));
      Collected(Outcomes(mapLine, [x, skip, bad, y])) == [Pair(x, 1), Pair(y, 1)]
  {
    var x, skip, bad, y: JString := [120], [115, 107, 105, 112], [98, 97, 100], [121];
    var mapLine := (line: JString) =>
      if line == skip then ReturnedNull else if line == bad then Threw else Returned(Pair(line, |line|));
    var os := Outcomes(mapLine, [x, skip, bad, y]);
    assert os == [Returned(Pair(x, 1)), ReturnedNull, Threw, Returned(Pair(y, 1))];
    CollectedSkips([Returned(Pair(x, 1)), ReturnedNull], Threw, [Returned(Pair(y, 1))]);
    assert os == [Returned(Pair(x, 1)), ReturnedNull] + [Threw] + [Returned(Pair(y, 1))];
  }

  class Mapper<K, V> {
    /** The `map` operation of the concrete mapper. */
    const mapLine: JString -> MapOutcome<K, V>
    /** The submitted tasks, in submission order, each as the outcome waiting on it reports. */
    var futures: seq<MapOutcome<K, V>>
    /** The pairs collected so far. */
    var output: seq<Pair<K, V>>
    /** Whether the executor has been shut down. */
    var poolShutdown: bool

    constructor (mapLine: JString -> MapOutcome<K, V>)
      ensures this.mapLine == mapLine
      ensures futures == [] && output == [] && !poolShutdown
    {
      this.mapLine := mapLine;
      futures := [];
      output := [];
      poolShutdown := false;
    }

    /**
     * `execute`: submit one task per line, then collect every task's result
     * into `output` and return `output`.  Once the executor has been shut
     * down, submitting a task throws, which leaves everything as it was.
     */
    method Execute(input: seq<JString>) returns (result: ExecuteResult<K, V>)
      modifies this
      ensures old(poolShutdown) && input != [] ==>
        result == RejectedExecution && futures == old(futures) && output == old(output) && poolShutdown
      ensures !(old(poolShutdown) && input != []) ==>
        && futures == old(futures) + Outcomes(mapLine, input)
        && output == old(output) + Collected(futures)
        && poolShutdown
        && result == Ok(output)
    {
      for i := 0 to |input|
        invariant poolShutdown == old(poolShutdown)
        invariant poolShutdown ==> i == 0
        invariant futures == old(futures) + Outcomes(mapLine, input[..i])
        invariant output == old(output)
      {
        if poolShutdown {
          return RejectedExecution;
        }
        assert Outcomes(mapLine, input[..i + 1]) == Outcomes(mapLine, input[..i]) + [mapLine(input[i])];
        futures := futures + [mapLine(input[i])];
      }
      assert input[..|input|] == input;
      output := CollectResults(output);
      result := Ok(output);
    }

    /**
     * `collectResults`: wait on every future in submission order, appending
     * each returned pair to `list`; a null result is dropped and a failed
     * task is skipped.  The executor is shut down afterwards.
     */
    method CollectResults(list: seq<Pair<K, V>>) returns (collected: seq<Pair<K, V>>)
      modifies this`poolShutdown
      ensures collected == list + Collected(futures)
      ensures poolShutdown
    {
      collected := list;
      for i := 0 to |futures|
        invariant collected == list + Collected(futures[..i])
      {
        assert futures[..i + 1] == futures[..i] + [futures[i]];
        CollectedSkips(futures[..i], futures[i], []);
        assert futures[..i] + [futures[i]] + [] == futures[..i + 1];
        match futures[i]
        case Returned(p) =>
          collected := collected + [p];
        case ReturnedNull =>
        case Threw =>
          // the stack trace is printed and the task is skipped
      }
      assert futures[..|futures|] == futures;
      poolShutdown := true;
    }
  }

  /** A fresh mapper run over `input` returns the returned pairs of its lines, in line order. */
  method MapBatch<K, V>(mapLine: JString -> MapOutcome<K, V>, input: seq<JString>) returns (pairs: seq<Pair<K, V>>)
    ensures pairs == Collected(Outcomes(mapLine, input))
    ensures |pairs| <= |input|
  {
    var mapper := new Mapper(mapLine);
    var result := mapper.Execute(input);
    assert mapper.futures == Outcomes(mapLine, input);
    assert result == Ok(Collected(Outcomes(mapLine, input)));
    pairs := result.pairs;
  }
}
