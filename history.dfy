/**
 * The broadcast history: the last `Capacity` MSG broadcasts, oldest first,
 * replayed to every session that logs in.
 */
module History {

  /** One recorded broadcast: who sent it and its normalised text. */
  datatype Entry = Entry(user: string, text: string)

  const Capacity: nat := 100

  /** A negative-index slice from `n > 0` places before the end: the last `n`
      elements, or all of them when there are fewer. */
  function LastN<T>(s: seq<T>, n: nat): (r: seq<T>)
    ensures |r| == if |s| <= n then |s| else n
  {
    if |s| <= n then s else s[|s| - n..]
  }

  /** The elements kept are the last ones of `s`, in their order. */
  lemma LastNIsSuffix<T>(s: seq<T>, n: nat)
    ensures LastN(s, n) == s[|s| - |LastN(s, n)|..]
  {
    if |s| <= n {
      assert s[0..] == s;
    }
  }

  /** A new entry goes at the end; when that makes the history longer than
      `Capacity`, the oldest entry is dropped from the front. */
  function Record(h: seq<Entry>, e: Entry): (r: seq<Entry>)
    ensures |h| <= Capacity ==> |r| <= Capacity && r == LastN(h + [e], Capacity)
    ensures r != [] && r[|r| - 1] == e
  {
    var pushed := h + [e];
    if |pushed| > Capacity then pushed[1..] else pushed
  }

  /** The history after recording each of `es` in turn. */
  function RecordAll(h: seq<Entry>, es: seq<Entry>): (r: seq<Entry>)
    ensures |h| <= Capacity ==> |r| <= Capacity
    decreases |es|
  {
    if es == [] then h else RecordAll(Record(h, es[0]), es[1..])
  }

  lemma LastNTwice<T>(x: seq<T>, y: seq<T>, n: nat)
    ensures LastN(LastN(x, n) + y, n) == LastN(x + y, n)
  {
    var a := LastN(x, n);
    assert x == x[..|x| - |a|] + a;
    assert x + y == x[..|x| - |a|] + (a + y);
  }

  /** However many broadcasts arrive, the history holds exactly the most
      recent `Capacity` of them (all of them while there are fewer), in
      arrival order: the oldest is evicted first. */
  lemma {:induction false} RecordAllKeepsLatest(h: seq<Entry>, es: seq<Entry>)
    requires |h| <= Capacity
    ensures RecordAll(h, es) == LastN(h + es, Capacity)
    decreases |es|
  {
    if es == [] {
      assert h + es == h;
    } else {
      var h1 := Record(h, es[0]);
      assert RecordAll(h, es) == RecordAll(h1, es[1..]);
      RecordAllKeepsLatest(h1, es[1..]);
      RecordThenRest(h, es);
    }
  }

  /** Recording the first of `es` and then keeping the last `Capacity` of the
      history followed by the others is keeping the last `Capacity` of the
      history followed by all of `es`. */
  lemma RecordThenRest(h: seq<Entry>, es: seq<Entry>)
    requires |h| <= Capacity && es != []
    ensures LastN(Record(h, es[0]) + es[1..], Capacity) == LastN(h + es, Capacity)
  {
    var x := h + [es[0]];
    var y := es[1..];
    LastNTwice(x, y, Capacity);
    assert x + y == h + es by {
      assert es == [es[0]] + y;
    }
  }

  /** Starting from the empty history of a fresh server. */
  lemma HistoryOfBroadcasts(es: seq<Entry>)
    ensures RecordAll([], es) == LastN(es, Capacity)
    ensures |es| <= Capacity ==> RecordAll([], es) == es
  {
    assert [] + es == es;
    RecordAllKeepsLatest([], es);
  }

  /** The replay at login takes the last `Capacity` entries, which is the
      whole of a history that never grows past `Capacity`. */
  lemma ReplayIsWholeHistory(h: seq<Entry>)
    requires |h| <= Capacity
    ensures LastN(h, Capacity) == h
  {
  }
}
