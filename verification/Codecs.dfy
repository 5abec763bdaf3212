/** Pairs of a reader and a writer, and the element lists built from them. A reader returns the
    value and the unread bytes; a writer's output is read back whatever follows it. */
module Codecs {
  import opened Bytes

  type Reader<T> = seq<byte> -> Parsed<T>

  /** A successful read consumes at least one byte. */
  ghost predicate Productive<T(!new)>(read: Reader<T>) {
    forall s :: s != [] && read(s).Parsed? ==> |read(s).rest| < |s|
  }

  /** Every successful read is undone by the writer and yields an accepted value. */
  ghost predicate ReadsBack<T(!new)>(read: Reader<T>, write: T -> seq<byte>, accepted: T -> bool) {
    forall s :: read(s).Parsed? ==> accepted(read(s).value) && s == write(read(s).value) + read(s).rest
  }

  /** Every accepted value survives writing and reading. */
  ghost predicate WritesBack<T(!new)>(read: Reader<T>, write: T -> seq<byte>, accepted: T -> bool) {
    forall v, tail :: accepted(v) ==> read(write(v) + tail) == Parsed(v, tail)
  }

  ghost predicate IsCodec<T(!new)>(read: Reader<T>, write: T -> seq<byte>, accepted: T -> bool) {
    ReadsBack(read, write, accepted) && WritesBack(read, write, accepted)
  }

  function WriteAll<T>(write: T -> seq<byte>, vs: seq<T>): seq<byte> {
    if |vs| == 0 then [] else write(vs[0]) + WriteAll(write, vs[1..])
  }

  predicate AllAccepted<T>(accepted: T -> bool, vs: seq<T>) {
    forall i :: 0 <= i < |vs| ==> accepted(vs[i])
  }

  lemma {:induction false} WriteAllConcat<T>(write: T -> seq<byte>, a: seq<T>, b: seq<T>)
    ensures WriteAll(write, a + b) == WriteAll(write, a) + WriteAll(write, b)
  {
    if |a| == 0 {
      assert a + b == b;
    } else {
      WriteAllConcat(write, a[1..], b);
      assert (a + b)[1..] == a[1..] + b && (a + b)[0] == a[0];
      Assoc(write(a[0]), WriteAll(write, a[1..]), WriteAll(write, b));
    }
  }

  lemma WriteAllCons<T>(write: T -> seq<byte>, v: T, vs: seq<T>, tail: seq<byte>)
    ensures WriteAll(write, [v] + vs) == write(v) + WriteAll(write, vs)
    ensures WriteAll(write, [v] + vs) + tail == write(v) + (WriteAll(write, vs) + tail)
  {
    assert ([v] + vs)[1..] == vs;
  }

  // ----- A list of a given number of elements -----

  function ReadCount<T>(read: Reader<T>, s: seq<byte>, count: nat): Parsed<seq<T>>
    decreases count
  {
    if count == 0 then Parsed([], s)
    else
      match read(s)
      case Failed => Failed
      case Parsed(v, rest) =>
        match ReadCount(read, rest, count - 1)
        case Failed => Failed
        case Parsed(vs, rest') => Parsed([v] + vs, rest')
  }

  lemma {:induction false} ReadCountWrite<T(!new)>(read: Reader<T>, write: T -> seq<byte>, accepted: T -> bool,
                                                  s: seq<byte>, count: nat)
    requires ReadsBack(read, write, accepted)
    requires ReadCount(read, s, count).Parsed?
    ensures var r := ReadCount(read, s, count);
            |r.value| == count && AllAccepted(accepted, r.value) && s == WriteAll(write, r.value) + r.rest
    decreases count
  {
    if count > 0 {
      var Parsed(v, rest) := read(s);
      ReadCountWrite(read, write, accepted, rest, count - 1);
      var Parsed(vs, rest') := ReadCount(read, rest, count - 1);
      WriteAllCons(write, v, vs, rest');
    }
  }

  lemma {:induction false} WriteReadCount<T(!new)>(read: Reader<T>, write: T -> seq<byte>, accepted: T -> bool,
                                                  vs: seq<T>, tail: seq<byte>)
    requires WritesBack(read, write, accepted)
    requires AllAccepted(accepted, vs)
    ensures ReadCount(read, WriteAll(write, vs) + tail, |vs|) == Parsed(vs, tail)
  {
    if |vs| == 0 {
      assert WriteAll(write, vs) + tail == tail;
    } else {
      assert vs == [vs[0]] + vs[1..];
      WriteAllCons(write, vs[0], vs[1..], tail);
      WriteReadCount(read, write, accepted, vs[1..], tail);
    }
  }

  // ----- A list that fills a given number of bytes -----

  /** Reads elements until exactly `budget` bytes are consumed; an element that runs past the
      budget makes the list unreadable. */
  function ReadBytes<T(!new)>(read: Reader<T>, s: seq<byte>, budget: nat): Parsed<seq<T>>
    requires Productive(read)
    decreases budget
  {
    if budget == 0 then Parsed([], s)
    else if s == [] then Failed
    else
      match read(s)
      case Failed => Failed
      case Parsed(v, rest) =>
        var used := |s| - |rest|;
        if used > budget then Failed
        else
          match ReadBytes(read, rest, budget - used)
          case Failed => Failed
          case Parsed(vs, rest') => Parsed([v] + vs, rest')
  }

  lemma {:induction false} ReadBytesWrite<T(!new)>(read: Reader<T>, write: T -> seq<byte>, accepted: T -> bool,
                                                  s: seq<byte>, budget: nat)
    requires Productive(read) && ReadsBack(read, write, accepted)
    requires ReadBytes(read, s, budget).Parsed?
    ensures var r := ReadBytes(read, s, budget);
            && AllAccepted(accepted, r.value)
            && s == WriteAll(write, r.value) + r.rest
            && |WriteAll(write, r.value)| == budget
    decreases budget
  {
    if budget > 0 {
      var Parsed(v, rest) := read(s);
      var left := budget - (|s| - |rest|);
      ReadBytesWrite(read, write, accepted, rest, left);
      var Parsed(vs, rest') := ReadBytes(read, rest, left);
      WriteAllCons(write, v, vs, rest');
      assert AllAccepted(accepted, [v] + vs);
    }
  }

  lemma {:induction false} WriteReadBytes<T(!new)>(read: Reader<T>, write: T -> seq<byte>, accepted: T -> bool,
                                                  vs: seq<T>, tail: seq<byte>)
    requires Productive(read) && WritesBack(read, write, accepted)
    requires AllAccepted(accepted, vs)
    requires forall v :: accepted(v) ==> write(v) != []
    ensures ReadBytes(read, WriteAll(write, vs) + tail, |WriteAll(write, vs)|) == Parsed(vs, tail)
  {
    if |vs| == 0 {
      assert WriteAll(write, vs) + tail == tail;
    } else {
      assert vs == [vs[0]] + vs[1..];
      WriteAllCons(write, vs[0], vs[1..], tail);
      WriteReadBytes(read, write, accepted, vs[1..], tail);
    }
  }
}
