/**
 * The pieces of Python string behaviour the loader's SQL text is built from:
 * `sep.join(items)`, `s.strip(c)` for a single character `c`, and the `repr`
 * of a list or a tuple whose items are already rendered.
 */
module PyText {

  /** `sep.join(xs)`. */
  function Join(sep: string, xs: seq<string>): string
    decreases |xs|
  {
    if |xs| == 0 then ""
    else if |xs| == 1 then xs[0]
    else xs[0] + sep + Join(sep, xs[1..])
  }

  /** Where item `i` starts inside `Join(sep, xs)`: the lengths of the items
      before it, each followed by one separator. */
  function Offset(sep: string, xs: seq<string>, i: nat): nat
    requires i <= |xs|
    decreases i
  {
    if i == 0 then 0 else |xs[0]| + |sep| + Offset(sep, xs[1..], i - 1)
  }

  /** Item `i` sits at `Offset(sep, xs, i)` and, unless it is the last one,
      is followed by exactly one copy of the separator. */
  lemma {:induction false} JoinAt(sep: string, xs: seq<string>, i: nat)
    requires i < |xs|
    ensures Offset(sep, xs, i) + |xs[i]| <= |Join(sep, xs)|
    ensures Join(sep, xs)[Offset(sep, xs, i)..Offset(sep, xs, i) + |xs[i]|] == xs[i]
    ensures i + 1 < |xs| ==>
      Offset(sep, xs, i) + |xs[i]| + |sep| <= |Join(sep, xs)| &&
      Join(sep, xs)[Offset(sep, xs, i) + |xs[i]|..Offset(sep, xs, i) + |xs[i]| + |sep|] == sep
    decreases |xs|, 1
  {
    if i == 0 {
      assert Offset(sep, xs, 0) == 0;
      if |xs| > 1 {
        JoinAtHead(sep, xs);
      }
    } else {
      JoinAtLater(sep, xs, i);
    }
  }

  /** JoinAt for an item after the first: it sits in the join of the rest,
      shifted by the first item and one separator. */
  lemma {:induction false} JoinAtLater(sep: string, xs: seq<string>, i: nat)
    requires 0 < i < |xs|
    ensures Offset(sep, xs, i) + |xs[i]| <= |Join(sep, xs)|
    ensures Join(sep, xs)[Offset(sep, xs, i)..Offset(sep, xs, i) + |xs[i]|] == xs[i]
    ensures i + 1 < |xs| ==>
      Offset(sep, xs, i) + |xs[i]| + |sep| <= |Join(sep, xs)| &&
      Join(sep, xs)[Offset(sep, xs, i) + |xs[i]|..Offset(sep, xs, i) + |xs[i]| + |sep|] == sep
    decreases |xs|, 0
  {
    var head := xs[0] + sep;
    var rest := Join(sep, xs[1..]);
    assert Join(sep, xs) == head + rest;
    JoinAt(sep, xs[1..], i - 1);
    assert xs[1..][i - 1] == xs[i];
    var o := Offset(sep, xs[1..], i - 1);
    assert Offset(sep, xs, i) == |head| + o;
    ShiftedItem(head, rest, o, xs[i], sep, i + 1 < |xs|);
  }

  /** The first item of a join of several, and the separator after it. */
  lemma JoinAtHead(sep: string, xs: seq<string>)
    requires |xs| > 1
    ensures |xs[0]| + |sep| <= |Join(sep, xs)|
    ensures Join(sep, xs)[..|xs[0]|] == xs[0]
    ensures Join(sep, xs)[|xs[0]|..|xs[0]| + |sep|] == sep
  {
    var rest := Join(sep, xs[1..]);
    assert Join(sep, xs) == xs[0] + (sep + rest);
    SliceShift(xs[0], sep + rest, 0, |sep|);
  }

  /** An item found in `rest`, and the separator after it, are found
      `|head|` further on in `head + rest`. */
  lemma ShiftedItem(head: string, rest: string, o: nat, item: string, sep: string, more: bool)
    requires o + |item| <= |rest| && rest[o..o + |item|] == item
    requires more ==> o + |item| + |sep| <= |rest| && rest[o + |item|..o + |item| + |sep|] == sep
    ensures |head| + o + |item| <= |head + rest|
    ensures (head + rest)[|head| + o..|head| + o + |item|] == item
    ensures more ==>
              |head| + o + |item| + |sep| <= |head + rest| &&
              (head + rest)[|head| + o + |item|..|head| + o + |item| + |sep|] == sep
  {
    SliceShift(head, rest, o, o + |item|);
    if more {
      SliceShift(head, rest, o + |item|, o + |item| + |sep|);
    }
  }

  /** Item `k` of a join placed between `pre` and `post`. */
  lemma JoinedWithin(pre: string, sep: string, xs: seq<string>, post: string, k: nat)
    requires k < |xs|
    ensures |pre| + Offset(sep, xs, k) + |xs[k]| <= |pre + Join(sep, xs) + post|
    ensures (pre + Join(sep, xs) + post)[|pre| + Offset(sep, xs, k)..|pre| + Offset(sep, xs, k) + |xs[k]|] == xs[k]
  {
    JoinAt(sep, xs, k);
    Within(pre, Join(sep, xs), post, Offset(sep, xs, k), xs[k]);
  }

  /** A piece of `j` found at `o` is found at `|pre| + o` in `pre + j + post`. */
  lemma Within(pre: string, j: string, post: string, o: nat, item: string)
    requires o + |item| <= |j| && j[o..o + |item|] == item
    ensures |pre| + o + |item| <= |pre + j + post|
    ensures (pre + j + post)[|pre| + o..|pre| + o + |item|] == item
  {
    assert pre + j + post == pre + (j + post);
    SlicePrefix(j, post, o, o + |item|);
    SliceShift(pre, j + post, o, o + |item|);
  }

  /** A slice of the first half of `a + b`. */
  lemma SlicePrefix<T>(a: seq<T>, b: seq<T>, lo: nat, hi: nat)
    requires lo <= hi <= |a|
    ensures (a + b)[lo..hi] == a[lo..hi]
  {
  }

  /** A slice of the second half of `a + b`. */
  lemma SliceShift<T>(a: seq<T>, b: seq<T>, lo: nat, hi: nat)
    requires lo <= hi <= |b|
    ensures (a + b)[|a| + lo..|a| + hi] == b[lo..hi]
    ensures (a + b)[..|a|] == a
  {
  }

  /** Nothing comes after the last item: together with JoinAt this pins
      down every character of the joined text. */
  lemma {:induction false} JoinLength(sep: string, xs: seq<string>)
    requires |xs| > 0
    ensures |Join(sep, xs)| + |sep| == Offset(sep, xs, |xs|)
  {
    if |xs| > 1 {
      JoinLength(sep, xs[1..]);
    }
  }

  /** Joining two non-empty lists puts one separator between their joins. */
  lemma {:induction false} JoinAppend(sep: string, a: seq<string>, b: seq<string>)
    requires |a| > 0 && |b| > 0
    ensures Join(sep, a + b) == Join(sep, a) + sep + Join(sep, b)
  {
    assert (a + b)[1..] == a[1..] + b;
    if |a| > 1 {
      JoinAppend(sep, a[1..], b);
    }
  }

  /** A join of non-empty items starts with the first item's first character
      and ends with the last item's last character. */
  lemma {:induction false} JoinEnds(sep: string, xs: seq<string>)
    requires |xs| > 0
    requires forall k :: 0 <= k < |xs| ==> |xs[k]| > 0
    ensures |Join(sep, xs)| > 0
    ensures Join(sep, xs)[0] == xs[0][0]
    ensures Join(sep, xs)[|Join(sep, xs)| - 1] == xs[|xs| - 1][|xs[|xs| - 1]| - 1]
  {
    if |xs| > 1 {
      JoinEnds(sep, xs[1..]);
      assert xs[1..][|xs[1..]| - 1] == xs[|xs| - 1];
    }
  }

  /** `s.lstrip(c)`: drop every leading `c`. */
  function LStrip(s: string, c: char): (r: string)
    ensures |r| <= |s| && r == s[|s| - |r|..]
    ensures forall k :: 0 <= k < |s| - |r| ==> s[k] == c
    ensures |r| > 0 ==> r[0] != c
    decreases |s|
  {
    if |s| > 0 && s[0] == c then
      var r := LStrip(s[1..], c);
      assert forall k :: 1 <= k < |s| - |r| ==> s[k] == s[1..][k - 1];
      r
    else s
  }

  /** `s.rstrip(c)`: drop every trailing `c`. */
  function RStrip(s: string, c: char): (r: string)
    ensures |r| <= |s| && r == s[..|r|]
    ensures forall k :: |r| <= k < |s| ==> s[k] == c
    ensures |r| > 0 ==> r[|r| - 1] != c
    decreases |s|
  {
    if |s| > 0 && s[|s| - 1] == c then
      var r := RStrip(s[..|s| - 1], c);
      assert forall k :: |r| <= k < |s| - 1 ==> s[k] == s[..|s| - 1][k];
      r
    else s
  }

  /** `s.strip(c)`: drop `c` from both ends. */
  function Strip(s: string, c: char): string
  {
    RStrip(LStrip(s, c), c)
  }

  /** `str(list)` of items whose reprs are `items`. */
  function ListRepr(items: seq<string>): string
  {
    "[" + Join(", ", items) + "]"
  }

  /** `repr(tuple)` of items whose reprs are `items`; a 1-tuple keeps
      Python's trailing comma. */
  function TupleRepr(items: seq<string>): (r: string)
    ensures |r| >= 2 && r[0] == '(' && r[|r| - 1] == ')'
  {
    if |items| == 1 then "(" + items[0] + ",)" else "(" + Join(", ", items) + ")"
  }

  /** `.strip('[').strip(']')` removes exactly the outer brackets of
      `"[" + body + "]"` when `body` neither starts with a bracket nor ends
      with `]`; in particular `"[]"` becomes the empty string. */
  lemma {:induction false} StripOuterBrackets(body: string)
    requires |body| > 0 ==> body[0] != '[' && body[0] != ']' && body[|body| - 1] != ']'
    ensures Strip(Strip("[" + body + "]", '['), ']') == body
  {
    OpeningBracket(body);
    ClosingBracket(body);
  }

  lemma OpeningBracket(body: string)
    requires |body| > 0 ==> body[0] != '['
    ensures Strip("[" + body + "]", '[') == body + "]"
  {
    var t := body + "]";
    assert ("[" + body + "]")[1..] == t;
    LStripFirst("[" + body + "]", '[');
    Unbracketed(t, '[');
  }

  /** A text that neither starts nor ends with `c` is its own strip. */
  lemma Unbracketed(t: string, c: char)
    requires |t| > 0 && t[0] != c && t[|t| - 1] != c
    ensures Strip(t, c) == t
  {
    KeepsEnds(t, c);
  }

  lemma ClosingBracket(body: string)
    requires |body| > 0 ==> body[0] != ']' && body[|body| - 1] != ']'
    ensures Strip(body + "]", ']') == body
  {
    var t := body + "]";
    if |body| == 0 {
      assert t == "]";
      LStripFirst(t, ']');
      assert LStrip(t, ']') == "";
    } else {
      KeepsEnds(t, ']');
      RStripLast(t, ']');
      assert t[..|t| - 1] == body;
      KeepsEnds(body, ']');
    }
  }

  lemma LStripFirst(s: string, c: char)
    requires |s| > 0 && s[0] == c
    ensures LStrip(s, c) == LStrip(s[1..], c)
  {
  }

  lemma RStripLast(s: string, c: char)
    requires |s| > 0 && s[|s| - 1] == c
    ensures RStrip(s, c) == RStrip(s[..|s| - 1], c)
  {
  }

  lemma KeepsEnds(s: string, c: char)
    ensures |s| > 0 && s[0] != c ==> LStrip(s, c) == s
    ensures |s| > 0 && s[|s| - 1] != c ==> RStrip(s, c) == s
    ensures |s| == 0 ==> LStrip(s, c) == s && RStrip(s, c) == s
  {
  }
}
