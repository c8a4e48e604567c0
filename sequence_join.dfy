/** The `join` range adaptor: renders the elements of a range as text and
    writes a separator strictly between consecutive elements.

    How an element is written to the string stream (`ss << x`) is the
    parameter `text`; in the demonstration the elements are strings, which
    are written as they are.
 */
module SequenceJoin {

  /** The elements `xs` with `sep` between each two consecutive ones: no
      separator before the first element or after the last. */
  function Join(xs: seq<string>, sep: string): (r: string)
  {
    if |xs| == 0 then ""
    else if |xs| == 1 then xs[0]
    else xs[0] + sep + Join(xs[1..], sep)
  }

  /** The elements of `xs` run together. */
  function Concat(xs: seq<string>): (r: string)
  {
    if xs == [] then "" else xs[0] + Concat(xs[1..])
  }

  /** Total length of the elements of `xs`. */
  function TotalLength(xs: seq<string>): (n: nat)
  {
    if xs == [] then 0 else |xs[0]| + TotalLength(xs[1..])
  }

  /** The text form of every element of `r`, in order. */
  function Rendered<T>(r: seq<T>, text: T -> string): (texts: seq<string>)
  {
    seq(|r|, i requires 0 <= i < |r| => text(r[i]))
  }

  /** The `join` function object; a default-constructed one has the empty
      separator. */
  datatype Joiner = Joiner(sep: string)
  {
    /** `operator()`: one pass over `r`, holding back the previous element
        and writing it followed by the separator once another element is seen;
        the last element is written with no separator after it. */
    method Apply<T>(r: seq<T>, text: T -> string) returns (s: string)
      ensures s == Join(Rendered(r, text), sep)
      ensures r == [] ==> s == ""
      ensures |r| == 1 ==> s == text(r[0])
    {
      s := "";
      if 0 < |r| {
        var prev := r[0];
        var it := 1;
        while it < |r|
          invariant 1 <= it <= |r|
          invariant prev == r[it - 1]
          invariant s + text(prev) == Join(Rendered(r[..it], text), sep)
        {
          JoinSnoc(Rendered(r[..it], text), text(r[it]), sep);
          assert Rendered(r[..it + 1], text) == Rendered(r[..it], text) + [text(r[it])];
          s := s + text(prev) + sep;
          prev := r[it];
          it := it + 1;
        }
        assert r[..it] == r;
        s := s + text(prev);
      } else {
        assert Rendered(r, text) == [];
      }
    }
  }

  /** The separator of `join()` is empty. */
  const DefaultJoiner: Joiner := Joiner("")

  // ---------------------------------------------------------------------------
  // Properties
  // ---------------------------------------------------------------------------

  /** Joining nothing gives the empty string. */
  lemma JoinEmpty(sep: string)
    ensures Join([], sep) == ""
  {
  }

  /** Joining one element gives that element, with no separator. */
  lemma JoinSingleton(x: string, sep: string)
    ensures Join([x], sep) == x
  {
  }

  /** Appending an element to a non-empty sequence appends the separator and
      that element to the joined string. */
  lemma {:induction false} JoinSnoc(xs: seq<string>, x: string, sep: string)
    requires xs != []
    ensures Join(xs + [x], sep) == Join(xs, sep) + sep + x
  {
    if |xs| == 1 {
      assert xs + [x] == [xs[0], x];
      assert [xs[0], x][1..] == [x];
    } else {
      assert (xs + [x])[1..] == xs[1..] + [x];
      JoinSnoc(xs[1..], x, sep);
    }
  }

  /** Joining two non-empty sequences one after the other is joining each and
      putting one separator between the results. */
  lemma {:induction false} JoinAppend(xs: seq<string>, ys: seq<string>, sep: string)
    requires xs != [] && ys != []
    ensures Join(xs + ys, sep) == Join(xs, sep) + sep + Join(ys, sep)
  {
    if |xs| == 1 {
      assert (xs + ys)[1..] == ys;
    } else {
      assert (xs + ys)[1..] == xs[1..] + ys;
      JoinAppend(xs[1..], ys, sep);
    }
  }

  /** The joined string starts with the first element and ends with the
      last: there is no leading and no trailing separator. */
  lemma {:induction false} JoinBoundaries(xs: seq<string>, sep: string)
    requires xs != []
    ensures xs[0] <= Join(xs, sep)
    ensures |xs[|xs| - 1]| <= |Join(xs, sep)|
    ensures Join(xs, sep)[|Join(xs, sep)| - |xs[|xs| - 1]|..] == xs[|xs| - 1]
  {
    if |xs| > 1 {
      var init := xs[..|xs| - 1];
      var last := xs[|xs| - 1];
      assert xs == init + [last];
      JoinSnoc(init, last, sep);
    }
  }

  /** The joined string holds every character of every element and one
      separator per pair of neighbouring elements. */
  lemma {:induction false} JoinLength(xs: seq<string>, sep: string)
    requires xs != []
    ensures |Join(xs, sep)| == TotalLength(xs) + (|xs| - 1) * |sep|
  {
    if |xs| > 1 {
      JoinLength(xs[1..], sep);
    }
  }

  /** With the empty separator of `join()` the elements are simply run
      together. */
  lemma {:induction false} JoinWithoutSeparator(xs: seq<string>)
    ensures Join(xs, DefaultJoiner.sep) == Concat(xs)
  {
    if |xs| == 1 {
      assert Concat(xs) == xs[0] + Concat([]);
    } else if |xs| > 1 {
      JoinWithoutSeparator(xs[1..]);
    }
  }

  /** Three elements: `a`, separator, `b`, separator, `c`. */
  lemma JoinThree(a: string, b: string, c: string, sep: string)
    ensures Join([a, b, c], sep) == a + sep + b + sep + c
  {
    assert [a, b, c][1..] == [b, c];
    assert [b, c][1..] == [c];
    assert Join([b, c], sep) == b + sep + c;
    assert Join([a, b, c], sep) == a + sep + (b + sep + c);
    assert a + sep + (b + sep + c) == a + sep + b + sep + c;
  }

  /** The words of the demonstration, joined with "..". */
  lemma JoinOfWords()
    ensures Join(["hello", "world", "this is", "PrettyCool"], "..") == "hello..world..this is..PrettyCool"
  {
  }

  /** The decimal forms of 10, 20 and 30, joined with "..". */
  lemma JoinOfNumbers()
    ensures Join(["10", "20", "30"], "..") == "10..20..30"
  {
  }
}
