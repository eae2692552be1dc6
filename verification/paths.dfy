/** Slash-separated paths as Go's `path/filepath` builds and splits them on a
    Unix host. A path is a string; `JoinPath` drops empty elements and puts one
    separator between the rest. The lexical clean-up `filepath.Join` also
    performs (collapsing `//`, `.` and `..`) is not modelled. */
module Paths {
  import opened Strings

  const Separator: char := '/'

  /** The non-empty elements of `elems`, in order. */
  function NonEmpty(elems: seq<string>): seq<string> {
    if |elems| == 0 then []
    else (if elems[0] == "" then [] else [elems[0]]) + NonEmpty(elems[1..])
  }

  /** `NonEmpty` keeps exactly the non-empty elements: none of its result is
      empty, all of it comes from `elems`, every non-empty element is in it,
      and it is empty only when every element is. */
  lemma {:induction false} NonEmptyFacts(elems: seq<string>)
    ensures forall i :: 0 <= i < |NonEmpty(elems)| ==> NonEmpty(elems)[i] != ""
    ensures forall x :: x in NonEmpty(elems) ==> x in elems
    ensures |NonEmpty(elems)| == 0 <==> forall i :: 0 <= i < |elems| ==> elems[i] == ""
    ensures forall i :: 0 <= i < |elems| && elems[i] != "" ==> elems[i] in NonEmpty(elems)
  {
    if |elems| > 0 {
      NonEmptyFacts(elems[1..]);
      var head: seq<string> := if elems[0] == "" then [] else [elems[0]];
      assert NonEmpty(elems) == head + NonEmpty(elems[1..]);
      forall i | 0 < i < |elems| && elems[i] != ""
        ensures elems[i] in NonEmpty(elems)
      {
        assert elems[i] == elems[1..][i - 1];
      }
      forall x | x in NonEmpty(elems[1..])
        ensures x in elems
      {
        assert x in elems[1..];
      }
      if |NonEmpty(elems)| == 0 {
        forall i | 0 <= i < |elems|
          ensures elems[i] == ""
        {
          if i > 0 {
            assert elems[i] == elems[1..][i - 1];
          }
        }
      }
    }
  }

  /** `filepath.Join(elems...)` without the final `Clean`. */
  function JoinPath(elems: seq<string>): string {
    Join(NonEmpty(elems), Separator)
  }

  /** The file part of `filepath.Split(p)`: everything after the last separator. */
  function Base(p: string): (name: string)
    ensures |name| <= |p|
  {
    if |p| == 0 || p[|p| - 1] == Separator then ""
    else Base(p[..|p| - 1]) + [p[|p| - 1]]
  }

  /** `Base` is the longest separator-free suffix: after the last separator,
      or the whole path when there is none. */
  lemma {:induction false} BaseIsLastPart(p: string)
    ensures Separator !in Base(p)
    ensures Base(p) == p[|p| - |Base(p)|..]
    ensures |Base(p)| < |p| ==> p[|p| - |Base(p)| - 1] == Separator
  {
    if |p| > 0 && p[|p| - 1] != Separator {
      var q := p[..|p| - 1];
      BaseIsLastPart(q);
      assert p[|p| - |Base(p)|..] == q[|q| - |Base(q)|..] + [p[|p| - 1]];
    }
  }

  /** Dropping empty elements commutes with concatenation: the kept elements
      stay in order, each as often as it occurs. */
  lemma {:induction false} NonEmptyAppend(a: seq<string>, b: seq<string>)
    ensures NonEmpty(a + b) == NonEmpty(a) + NonEmpty(b)
  {
    if |a| > 0 {
      assert (a + b)[1..] == a[1..] + b;
      NonEmptyAppend(a[1..], b);
    } else {
      assert a + b == b;
    }
  }

  /** A join of non-empty parts is empty only when there are no parts. */
  lemma JoinOfNonEmpty(parts: seq<string>)
    requires forall i :: 0 <= i < |parts| ==> parts[i] != ""
    ensures Join(parts, Separator) == "" <==> |parts| == 0
  {
    if |parts| > 0 {
      JoinCons(parts[0], parts[1..], Separator);
      assert parts == [parts[0]] + parts[1..];
    }
  }

  /** Joining onto an already joined path is the same as joining all elements at once. */
  lemma JoinPathNested(xs: seq<string>, ys: seq<string>)
    ensures JoinPath([JoinPath(xs)] + ys) == JoinPath(xs + ys)
  {
    var a := NonEmpty(xs);
    var b := NonEmpty(ys);
    NonEmptyAppend(xs, ys);
    NonEmptyAppend([JoinPath(xs)], ys);
    NonEmptyFacts(xs);
    JoinOfNonEmpty(a);
    if JoinPath(xs) == "" {
      assert NonEmpty([JoinPath(xs)]) == [];
      assert a == [];
      assert a + b == b;
    } else {
      assert NonEmpty([JoinPath(xs)]) == [JoinPath(xs)];
      if |b| == 0 {
        assert a + b == a;
      } else {
        JoinCons(JoinPath(xs), b, Separator);
        JoinAppend(a, b, Separator);
      }
    }
  }

  /** A non-empty name joined under a directory. */
  lemma JoinPathChild(dir: string, name: string)
    requires name != ""
    ensures JoinPath([dir, name]) == if dir == "" then name else dir + [Separator] + name
  {
    assert [dir, name][1..] == [name];
    assert NonEmpty([name]) == [name];
    if dir != "" {
      JoinCons(dir, [name], Separator);
    }
  }

  /** The base of a path whose last part is a slash-free name is that name. */
  lemma BaseOfSuffix(p: string, name: string)
    requires name != "" && Separator !in name
    requires p == name || (|p| > |name| && p[|p| - |name| - 1] == Separator && p[|p| - |name|..] == name)
    ensures Base(p) == name
  {
    BaseIsLastPart(p);
  }

  /** `filepath.Split` recovers the name a path was joined from. */
  lemma BaseOfChild(dir: string, name: string)
    requires name != "" && Separator !in name
    ensures Base(JoinPath([dir, name])) == name
  {
    JoinPathChild(dir, name);
    BaseOfSuffix(JoinPath([dir, name]), name);
  }

  /** The base of a joined path is its last element, when that is a slash-free name. */
  lemma BaseOfJoinPath(xs: seq<string>, name: string)
    requires name != "" && Separator !in name
    ensures Base(JoinPath(xs + [name])) == name
  {
    JoinPathNested(xs, [name]);
    assert [JoinPath(xs)] + [name] == [JoinPath(xs), name];
    BaseOfChild(JoinPath(xs), name);
  }

  /** A character other than the separator appears in a joined path only if some element has it. */
  lemma JoinPathAvoids(elems: seq<string>, c: char)
    requires c != Separator
    requires forall e :: e in elems ==> c !in e
    ensures c !in JoinPath(elems)
  {
    var parts := NonEmpty(elems);
    NonEmptyFacts(elems);
    forall i | 0 <= i < |parts|
      ensures c !in parts[i]
    {
      assert parts[i] in parts;
    }
    JoinAvoids(parts, Separator, c);
  }
}
