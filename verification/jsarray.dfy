/** The two JavaScript array operations the projections rely on, over
    Dafny sequences: `slice(-n)` and `join(sep)`; plus the single-character
    split that undoes a join. */
module JsArray {

  function Min(a: int, b: int): int {
    if a <= b then a else b
  }

  /** `s.slice(-n)`: the last `n` elements, oldest first, or all of `s` when
      it is shorter. A zero count reads as `slice(0)` in JavaScript (`-0` is
      `0`) and therefore keeps every element. */
  function SliceLast<T>(s: seq<T>, n: nat): (r: seq<T>)
    ensures n > 0 ==> |r| == Min(n, |s|)
    ensures n == 0 ==> r == s
    ensures r == s[|s| - |r|..]
  {
    if n == 0 || |s| <= n then s else s[|s| - n..]
  }

  /** A shorter history is returned whole and in its own order. */
  lemma SliceLastShort<T>(s: seq<T>, n: nat)
    requires |s| <= n
    ensures SliceLast(s, n) == s
  {
  }

  /** Total number of characters in `parts`. */
  function SumLengths(parts: seq<string>): nat {
    if |parts| == 0 then 0 else |parts[0]| + SumLengths(parts[1..])
  }

  /** `parts.join(sep)`: the parts in order with `sep` between neighbours;
      no parts give the empty string. */
  function Join(parts: seq<string>, sep: string): (r: string)
    ensures |parts| > 0 ==> |r| == SumLengths(parts) + (|parts| - 1) * |sep|
    ensures |parts| > 0 ==> r[..|parts[0]|] == parts[0]
    ensures |parts| > 1 ==> r[..|parts[0]| + |sep|] == parts[0] + sep
  {
    if |parts| == 0 then ""
    else if |parts| == 1 then parts[0]
    else parts[0] + sep + Join(parts[1..], sep)
  }

  /** A character that occurs neither in the parts nor in the separator does
      not occur in the joined string. */
  lemma {:induction false} JoinAvoids(parts: seq<string>, sep: string, c: char)
    requires c !in sep
    requires forall i :: 0 <= i < |parts| ==> c !in parts[i]
    ensures c !in Join(parts, sep)
  {
    if |parts| > 1 {
      JoinAvoids(parts[1..], sep, c);
      assert Join(parts, sep) == parts[0] + sep + Join(parts[1..], sep);
    }
  }

  /** Position of the first `c` in `s`. */
  function IndexOf(s: string, c: char): (i: nat)
    requires c in s
    ensures i < |s| && s[i] == c
    ensures c !in s[..i]
  {
    if s[0] == c then 0
    else
      assert c in s[1..] by { assert s == [s[0]] + s[1..]; }
      var j := IndexOf(s[1..], c);
      assert s[..j + 1] == [s[0]] + s[1..][..j];
      j + 1
  }

  /** `s.split(c)`: the maximal runs between occurrences of `c`, read one
      character at a time; the empty string splits into one empty run. */
  function Split(s: string, c: char): (r: seq<string>)
    ensures |r| > 0
  {
    if |s| == 0 then [""]
    else
      var rest := Split(s[1..], c);
      if s[0] == c then [""] + rest
      else [[s[0]] + rest[0]] + rest[1..]
  }

  /** Splitting after a prefix free of `c` glues that prefix to the first
      piece. */
  lemma {:induction false} SplitAfterPrefix(pre: string, s: string, c: char)
    requires c !in pre
    ensures Split(pre + s, c) == [pre + Split(s, c)[0]] + Split(s, c)[1..]
  {
    if |pre| > 0 {
      assert pre[0] != c && c !in pre[1..];
      assert (pre + s)[1..] == pre[1..] + s;
      SplitAfterPrefix(pre[1..], s, c);
      var x := Split(pre[1..] + s, c);
      var y := Split(s, c);
      assert x[0] == pre[1..] + y[0] && x[1..] == y[1..];
      assert Split(pre + s, c) == [[pre[0]] + x[0]] + x[1..];
      assert [pre[0]] + (pre[1..] + y[0]) == pre + y[0];
    } else {
      var y := Split(s, c);
      assert pre + s == s && pre + y[0] == y[0];
      assert y == [y[0]] + y[1..];
    }
  }

  /** A string free of `c` splits into itself alone. */
  lemma {:induction false} SplitFree(s: string, c: char)
    requires c !in s
    ensures Split(s, c) == [s]
  {
    if |s| > 0 {
      assert c !in s[1..];
      SplitFree(s[1..], c);
      assert [s[0]] + s[1..] == s;
    }
  }

  /** A string that starts with `c` splits into an empty run followed by the
      split of the rest. */
  lemma SplitLeading(c: char, s: string)
    ensures Split([c] + s, c) == [""] + Split(s, c)
  {
    assert ([c] + s)[1..] == s;
  }

  /** Splitting on the first character `c` of a separator undoes the join,
      provided `c` occurs nowhere else: every part after the first comes
      back with the rest of the separator in front of it. */
  lemma {:induction false} SplitJoinLed(parts: seq<string>, c: char, tail: string)
    requires |parts| > 0
    requires c !in tail
    requires forall i :: 0 <= i < |parts| ==> c !in parts[i]
    ensures |Split(Join(parts, [c] + tail), c)| == |parts|
    ensures Split(Join(parts, [c] + tail), c)[0] == parts[0]
    ensures forall i :: 0 < i < |parts| ==> Split(Join(parts, [c] + tail), c)[i] == tail + parts[i]
  {
    var sep := [c] + tail;
    if |parts| > 1 {
      var rest := Join(parts[1..], sep);
      assert Join(parts, sep) == parts[0] + (sep + rest);
      SplitAfterPrefix(parts[0], sep + rest, c);
      assert sep + rest == [c] + (tail + rest);
      SplitLeading(c, tail + rest);
      SplitAfterPrefix(tail, rest, c);
      SplitJoinLed(parts[1..], c, tail);
      assert parts[0] + "" == parts[0];
    } else {
      SplitFree(parts[0], c);
    }
  }

  /** The comma-and-space case: splitting at the commas gives the parts,
      each after the first with its leading space. */
  lemma SplitJoinCommaSpace(parts: seq<string>)
    requires |parts| > 0
    requires forall i :: 0 <= i < |parts| ==> ',' !in parts[i]
    ensures |Split(Join(parts, ", "), ',')| == |parts|
    ensures Split(Join(parts, ", "), ',')[0] == parts[0]
    ensures forall i :: 0 < i < |parts| ==> Split(Join(parts, ", "), ',')[i] == " " + parts[i]
  {
    assert [','] + " " == ", ";
    SplitJoinLed(parts, ',', " ");
  }

  /** Splitting on a one-character separator undoes the join, provided no
      part contains that character. */
  lemma SplitJoin(parts: seq<string>, c: char)
    requires |parts| > 0
    requires forall i :: 0 <= i < |parts| ==> c !in parts[i]
    ensures Split(Join(parts, [c]), c) == parts
  {
    assert [c] + "" == [c];
    SplitJoinLed(parts, c, "");
    var r := Split(Join(parts, [c]), c);
    forall i | 0 < i < |parts|
      ensures r[i] == parts[i]
    {
      assert "" + parts[i] == parts[i];
    }
  }
}
