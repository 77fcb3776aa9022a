/** Reads of a byte stream, and the counted lists the wire format is made of.
    The laws of lists are proved once, for any element. */
module Many {
  import opened Prelude

  /** A read yields a value and what is left, or ends the connection: with one
      response byte (Refuse) or with none (Stop). */
  datatype Parse<+T> = Got(value: T, rest: bytes) | Refuse(code: byte) | Stop {
    predicate IsFailure() { !Got? }
    function PropagateFailure<U>(): Parse<U>
      requires !Got?
    {
      if Refuse? then Refuse(code) else Stop
    }
    function Extract(): (T, bytes)
      requires Got?
    {
      (value, rest)
    }
  }

  /** Reads one element, knowing those before it. */
  type Reader<!T> = (seq<T>, bytes) -> Parse<T>

  /** The n elements after those in acc. */
  function ReadMany<T>(read: Reader<T>, n: nat, acc: seq<T>, s: bytes): Parse<seq<T>>
    decreases n
  {
    if n == 0 then Got(acc, s)
    else
      var (x, s) :- read(acc, s);
      ReadMany(read, n - 1, acc + [x], s)
  }

  lemma {:induction false} ManyStep<T>(read: Reader<T>, n: nat, acc: seq<T>, s: bytes)
    requires n > 0
    ensures ReadMany(read, n, acc, s) == match read(acc, s)
      case Got(x, rest) => ReadMany(read, n - 1, acc + [x], rest)
      case Refuse(code) => Refuse(code)
      case Stop => Stop
  {
  }

  function EncodeAll<T>(enc: T -> bytes, xs: seq<T>): bytes {
    if xs == [] then [] else enc(xs[0]) + EncodeAll(enc, xs[1..])
  }

  /** One count byte, truncated as `byte(len(xs))` truncates, then the elements. */
  function EncodeList<T>(enc: T -> bytes, xs: seq<T>): bytes {
    [|xs| % 256] + EncodeAll(enc, xs)
  }

  lemma {:induction false} EncodeAllAppend<T>(enc: T -> bytes, xs: seq<T>, x: T)
    ensures EncodeAll(enc, xs + [x]) == EncodeAll(enc, xs) + enc(x)
  {
    if xs == [] {
      assert xs + [x] == [x] && [x][1..] == [];
    } else {
      assert (xs + [x])[1..] == xs[1..] + [x];
      EncodeAllAppend(enc, xs[1..], x);
    }
  }

  /** Every element of more is acceptable after acc and those before it. */
  ghost predicate AllOk<T>(ok: (seq<T>, T) -> bool, acc: seq<T>, more: seq<T>) {
    forall k :: 0 <= k < |more| ==> ok(acc + more[..k], more[k])
  }

  lemma {:induction false} AllOkCons<T>(ok: (seq<T>, T) -> bool, acc: seq<T>, x: T, tail: seq<T>)
    ensures AllOk(ok, acc, [x] + tail) <==> ok(acc, x) && AllOk(ok, acc + [x], tail)
  {
    var more := [x] + tail;
    assert acc + more[..0] == acc && more[0] == x;
    forall k | 0 <= k < |tail| ensures acc + [x] + tail[..k] == acc + more[..k + 1] && more[k + 1] == tail[k] {
    }
    if AllOk(ok, acc, more) {
      forall k | 0 <= k < |tail| ensures ok(acc + [x] + tail[..k], tail[k]) {
        assert ok(acc + more[..k + 1], more[k + 1]);
      }
    }
    if ok(acc, x) && AllOk(ok, acc + [x], tail) {
      forall k | 0 <= k < |more| ensures ok(acc + more[..k], more[k]) {
        if k > 0 { assert ok(acc + [x] + tail[..k - 1], tail[k - 1]); }
      }
    }
  }

  /** Reading an element in full undoes writing it. A reader that is not strict
      promises this only when bytes are left over: it may stop short at the end
      of the stream. */
  ghost predicate Sound<T(!new)>(read: Reader<T>, enc: T -> bytes, ok: (seq<T>, T) -> bool, strict: bool) {
    (forall acc: seq<T> :: !read(acc, []).Got?) &&
    forall acc: seq<T>, s: bytes ::
      read(acc, s).Got? && (strict || read(acc, s).rest != []) ==>
        ok(acc, read(acc, s).value) && s == enc(read(acc, s).value) + read(acc, s).rest
  }

  ghost predicate Complete<T(!new)>(read: Reader<T>, enc: T -> bytes, ok: (seq<T>, T) -> bool) {
    forall acc: seq<T>, x: T, rest: bytes {:trigger read(acc, enc(x) + rest)} ::
      ok(acc, x) ==> read(acc, enc(x) + rest) == Got(x, rest)
  }

  lemma {:induction false} ManySound<T(!new)>(read: Reader<T>, enc: T -> bytes, ok: (seq<T>, T) -> bool, strict: bool,
                                              n: nat, acc: seq<T>, s: bytes)
    returns (more: seq<T>)
    requires Sound(read, enc, ok, strict)
    requires ReadMany(read, n, acc, s).Got? && (strict || ReadMany(read, n, acc, s).rest != [])
    ensures var r := ReadMany(read, n, acc, s);
      |more| == n && r.value == acc + more && AllOk(ok, acc, more) && s == EncodeAll(enc, more) + r.rest
    decreases n
  {
    var r := ReadMany(read, n, acc, s);
    if n == 0 {
      more := [];
    } else {
      var first := read(acc, s);
      var after := ReadMany(read, n - 1, acc + [first.value], first.rest);
      assert first.rest == [] && n > 1 ==> !read(acc + [first.value], []).Got?;
      var tail := ManySound(read, enc, ok, strict, n - 1, acc + [first.value], first.rest);
      more := [first.value] + tail;
      Assoc(enc(first.value), EncodeAll(enc, tail), r.rest);
      assert more[1..] == tail;
      AllOkCons(ok, acc, first.value, tail);
    }
  }

  lemma {:induction false} ManyComplete<T(!new)>(read: Reader<T>, enc: T -> bytes, ok: (seq<T>, T) -> bool,
                                                 acc: seq<T>, more: seq<T>, rest: bytes)
    requires Complete(read, enc, ok) && AllOk(ok, acc, more)
    ensures ReadMany(read, |more|, acc, EncodeAll(enc, more) + rest) == Got(acc + more, rest)
    decreases |more|
  {
    if more == [] {
      assert acc + more == acc && EncodeAll(enc, more) + rest == rest;
    } else {
      var x := more[0];
      assert more == [x] + more[1..];
      AllOkCons(ok, acc, x, more[1..]);
      Assoc(enc(x), EncodeAll(enc, more[1..]), rest);
      assert acc + more == acc + [x] + more[1..];
      ManyComplete(read, enc, ok, acc + [x], more[1..], rest);
    }
  }

  /** A counted list: the count byte, then that many elements. */
  lemma {:induction false} ListSound<T(!new)>(read: Reader<T>, enc: T -> bytes, ok: (seq<T>, T) -> bool, strict: bool,
                                              s: bytes)
    requires Sound(read, enc, ok, strict) && s != []
    requires ReadMany(read, s[0], [], s[1..]).Got? && (strict || ReadMany(read, s[0], [], s[1..]).rest != [])
    ensures var r := ReadMany(read, s[0], [], s[1..]);
      |r.value| == s[0] && AllOk(ok, [], r.value) && s == EncodeList(enc, r.value) + r.rest
  {
    var more := ManySound(read, enc, ok, strict, s[0], [], s[1..]);
    assert [] + more == more;
    Assoc([s[0]], EncodeAll(enc, more), ReadMany(read, s[0], [], s[1..]).rest);
  }

  lemma Counted(n: byte, body: bytes, rest: bytes)
    ensures [n] + body + rest != [] && ([n] + body + rest)[0] == n && ([n] + body + rest)[1..] == body + rest
  {
  }

  lemma {:induction false} ListComplete<T(!new)>(read: Reader<T>, enc: T -> bytes, ok: (seq<T>, T) -> bool,
                                                 xs: seq<T>, rest: bytes)
    requires Complete(read, enc, ok) && AllOk(ok, [], xs) && |xs| < 256
    ensures var s := EncodeList(enc, xs) + rest;
      s != [] && s[0] == |xs| && ReadMany(read, |xs|, [], s[1..]) == Got(xs, rest)
  {
    var body := EncodeAll(enc, xs) + rest;
    assert ReadMany(read, |xs|, [], body) == Got(xs, rest) by {
      ManyComplete(read, enc, ok, [], xs, rest);
      assert [] + xs == xs;
    }
    Counted(|xs| % 256, EncodeAll(enc, xs), rest);
  }
}
