/** Byte streams seen as newline-terminated lines followed by an unterminated tail. */
module Lines {
  import opened CTypes

  /** A complete line: its only newline is its last byte. */
  predicate IsLine(l: seq<byte>) {
    |l| > 0 && l[|l| - 1] == NEWLINE && NEWLINE !in l[..|l| - 1]
  }

  predicate AllLines(ls: seq<seq<byte>>) {
    forall l | l in ls :: IsLine(l)
  }

  function Flatten(parts: seq<seq<byte>>): seq<byte> {
    if parts == [] then [] else parts[0] + Flatten(parts[1..])
  }

  lemma {:induction false} FlattenAppend(xs: seq<seq<byte>>, ys: seq<seq<byte>>)
    ensures Flatten(xs + ys) == Flatten(xs) + Flatten(ys)
  {
    if xs == [] {
      assert xs + ys == ys;
    } else {
      assert (xs + ys)[1..] == xs[1..] + ys;
      FlattenAppend(xs[1..], ys);
    }
  }

  lemma FlattenSingleton(x: seq<byte>)
    ensures Flatten([x]) == x
  {
    assert [x][1..] == [];
  }

  /** The bytes of `s` up to and including its first newline, or all of `s` when it has none. */
  function ThroughNewline(s: seq<byte>): (r: seq<byte>)
    ensures r <= s
    ensures NEWLINE in r <==> NEWLINE in s
    ensures NEWLINE in r ==> IsLine(r)
    ensures NEWLINE !in r ==> r == s
  {
    if s == [] then []
    else if s[0] == NEWLINE then [NEWLINE]
    else
      var rest := ThroughNewline(s[1..]);
      assert s == [s[0]] + s[1..];
      assert forall l: seq<byte> | |l| > 0 :: ([s[0]] + l)[..|l|] == [s[0]] + l[..|l| - 1];
      [s[0]] + rest
  }

  /** `ThroughNewline` is the only prefix that stops at the first newline or takes everything. */
  lemma ThroughNewlineUnique(s: seq<byte>, r: seq<byte>)
    requires r <= s
    requires IsLine(r) || (NEWLINE !in r && r == s)
    ensures r == ThroughNewline(s)
  {
    var t := ThroughNewline(s);
    if IsLine(r) {
      assert s[|r| - 1] == NEWLINE;
      OnlyNewlineLast(r);
      OnlyNewlineLast(t);
    }
  }

  lemma OnlyNewlineLast(l: seq<byte>)
    requires IsLine(l)
    ensures forall i | 0 <= i < |l| - 1 :: l[i] != NEWLINE
  {
    assert forall i | 0 <= i < |l| - 1 :: l[i] == l[..|l| - 1][i];
  }

  /** The first line of a stream that begins with `a`. */
  lemma {:induction false} ThroughNewlineAppend(a: seq<byte>, b: seq<byte>)
    ensures ThroughNewline(a + b) == if NEWLINE in a then ThroughNewline(a) else a + ThroughNewline(b)
  {
    if a == [] {
      assert a + b == b;
    } else {
      assert (a + b)[1..] == a[1..] + b;
      ThroughNewlineAppend(a[1..], b);
    }
  }

  /** A stream and its division into complete lines and the bytes after the last newline. */
  datatype Division = Division(lines: seq<seq<byte>>, tail: seq<byte>)

  function Divide(s: seq<byte>): Division {
    if s == [] then Division([], [])
    else
      var d := Divide(s[..|s| - 1]);
      var c := s[|s| - 1];
      if c == NEWLINE then Division(d.lines + [d.tail + [c]], [])
      else Division(d.lines, d.tail + [c])
  }

  lemma AppendLast<T>(s: seq<T>, t: seq<T>)
    requires t != []
    ensures s + t == (s + t[..|t| - 1]) + [t[|t| - 1]]
  {
  }

  lemma DivideAppendByte(s: seq<byte>, c: byte)
    ensures Divide(s + [c]) == if c == NEWLINE then Division(Divide(s).lines + [Divide(s).tail + [c]], [])
                               else Division(Divide(s).lines, Divide(s).tail + [c])
  {
    assert (s + [c])[..|s|] == s;
  }

  lemma {:induction false} DivideShape(s: seq<byte>)
    ensures AllLines(Divide(s).lines) && NEWLINE !in Divide(s).tail
    ensures Flatten(Divide(s).lines) + Divide(s).tail == s
  {
    if s != [] {
      var init, c := s[..|s| - 1], s[|s| - 1];
      var d := Divide(init);
      DivideShape(init);
      assert s == init + [c];
      if c == NEWLINE {
        assert (d.tail + [c])[..|d.tail|] == d.tail;
        FlattenAppend(d.lines, [d.tail + [c]]);
        FlattenSingleton(d.tail + [c]);
      }
    }
  }

  lemma {:induction false} DivideAppendPlain(s: seq<byte>, t: seq<byte>)
    requires NEWLINE !in t
    ensures Divide(s + t) == Division(Divide(s).lines, Divide(s).tail + t)
  {
    if t == [] {
      assert s + t == s;
    } else {
      var init, c := t[..|t| - 1], t[|t| - 1];
      DivideAppendPlain(s, init);
      DivideAppendByte(s + init, c);
      AppendLast(s, t);
      AppendLast(Divide(s).tail, t);
    }
  }

  lemma DivideAppendLine(s: seq<byte>, t: seq<byte>)
    requires IsLine(t)
    ensures Divide(s + t) == Division(Divide(s).lines + [Divide(s).tail + t], [])
  {
    var init := t[..|t| - 1];
    DivideAppendPlain(s, init);
    DivideAppendByte(s + init, NEWLINE);
    AppendLast(s, t);
    AppendLast(Divide(s).tail, t);
  }

  /** The division is the only one: lines and a newline-free tail can be read back from their bytes. */
  lemma {:induction false} DivideUnique(ls: seq<seq<byte>>, tail: seq<byte>)
    requires AllLines(ls) && NEWLINE !in tail
    ensures Divide(Flatten(ls) + tail) == Division(ls, tail)
  {
    DivideFlatten(ls);
    DivideAppendPlain(Flatten(ls), tail);
    assert [] + tail == tail;
  }

  lemma {:induction false} DivideFlatten(ls: seq<seq<byte>>)
    requires AllLines(ls)
    ensures Divide(Flatten(ls)) == Division(ls, [])
  {
    if ls != [] {
      var init, last := ls[..|ls| - 1], ls[|ls| - 1];
      assert ls == init + [last];
      DivideFlatten(init);
      FlattenAppend(init, [last]);
      FlattenSingleton(last);
      DivideAppendLine(Flatten(init), last);
      assert [] + last == last;
    }
  }

  /** The last `n` elements of `xs`, or all of them when there are fewer. */
  function LastN<T>(xs: seq<T>, n: nat): seq<T> {
    if |xs| <= n then xs else xs[|xs| - n..]
  }

  /** A bounded log: appending to a full log drops its oldest element. */
  function Push<T>(capacity: nat, xs: seq<T>, x: T): seq<T> {
    if |xs| >= capacity > 0 then xs[1..] + [x] else xs + [x]
  }

  lemma PushLastN<T>(capacity: nat, xs: seq<T>, x: T)
    requires capacity > 0
    ensures Push(capacity, LastN(xs, capacity), x) == LastN(xs + [x], capacity)
  {
  }

  /** Reading a prefix that ends a line leaves the rest of the lines to be read. */
  lemma ThroughNewlineOfLines(ls: seq<seq<byte>>, tail: seq<byte>, k: nat, b: nat)
    requires AllLines(ls) && k < |ls| && b < |ls[k]|
    ensures ThroughNewline(ls[k][b..] + Flatten(ls[k + 1..]) + tail) == ls[k][b..]
  {
    var r := ls[k][b..];
    assert IsLine(ls[k]);
    OnlyNewlineLast(ls[k]);
    ThroughNewlineUnique(r + Flatten(ls[k + 1..]) + tail, r);
  }
}
