/**
 * What handle_client (network/server.py and server.py) reads from a client:
 * a byte stream cut into lines at '\n', each line a JSON object. Decoding
 * JSON is not modelled; a decoded line is a Message, and a line that does
 * not decode to an object with a `get` method is Malformed.
 */
module Protocol {
  import opened Wrappers

  /**
   * A numeric field of a command: absent, an integer (JSON true and false
   * count, as Python's bool is an int), or some other value, which makes
   * the arithmetic that uses it raise TypeError.
   */
  datatype Field = Missing | Int(n: int) | NonInt

  /**
   * A decoded line: `attack` is the truthiness of `message.get("attack", False)`;
   * the other fields are `dx`, `dy` and `damage`.
   */
  datatype Message = Malformed | Command(attack: bool, dx: Field, dy: Field, damage: Field)

  /** `message.get(name, default)` used as an integer: None when it is not one. */
  function ValueOr(f: Field, default: int): (v: Option<int>)
    ensures f.Missing? ==> v == Some(default)
    ensures f.Int? ==> v == Some(f.n)
    ensures f.NonInt? <==> v.None?
  {
    match f
    case Missing => Some(default)
    case Int(n) => Some(n)
    case NonInt => None
  }

  const Newline: char := '\n'

  /** `buffer.split("\n", 1)` when the buffer holds a newline. */
  function Split(s: string): (r: Option<(string, string)>)
    ensures r.None? <==> Newline !in s
    ensures r.Some? ==> s == r.value.0 + [Newline] + r.value.1 && Newline !in r.value.0
  {
    if s == [] then None
    else if s[0] == Newline then
      assert s == [] + [Newline] + s[1..];
      Some(([], s[1..]))
    else
      match Split(s[1..])
      case None => None
      case Some(p) =>
        assert s == [s[0]] + p.0 + [Newline] + p.1;
        Some(([s[0]] + p.0, p.1))
  }

  /** The lines, each followed by its newline. */
  function Join(lines: seq<string>): string {
    if lines == [] then [] else Join(lines[..|lines| - 1]) + lines[|lines| - 1] + [Newline]
  }

  predicate NoNewline(s: string) {
    Newline !in s
  }

  /** The complete lines of s and the unfinished tail, as the framing loop cuts them. */
  function Frames(s: string): (seq<string>, string)
    decreases |s|
  {
    match Split(s)
    case None => ([], s)
    case Some(p) =>
      var rest := Frames(p.1);
      ([p.0] + rest.0, rest.1)
  }

  /**
   * The cut loses nothing and stops at the right places: the lines, each
   * followed by '\n', and then the tail make up s; neither the lines nor the
   * tail hold a newline.
   */
  lemma FramesSound(s: string)
    ensures Join(Frames(s).0) + Frames(s).1 == s
    ensures NoNewline(Frames(s).1)
    ensures forall k :: 0 <= k < |Frames(s).0| ==> NoNewline(Frames(s).0[k])
  {
    FramesJoin(s);
    FramesTail(s);
    FramesLines(s);
  }

  lemma {:induction false} FramesJoin(s: string)
    ensures Join(Frames(s).0) + Frames(s).1 == s
    decreases |s|
  {
    if Newline in s {
      var p := Split(s).value;
      FramesNext(s);
      FramesJoin(p.1);
      var tail := Frames(p.1);
      JoinCons(p.0, tail.0);
      calc {
        Join([p.0] + tail.0) + tail.1;
        p.0 + [Newline] + Join(tail.0) + tail.1;
        p.0 + [Newline] + (Join(tail.0) + tail.1);
      }
    } else {
      FramesDone(s);
    }
  }

  lemma {:induction false} FramesTail(s: string)
    ensures NoNewline(Frames(s).1)
    decreases |s|
  {
    if Newline in s {
      FramesNext(s);
      FramesTail(Split(s).value.1);
    } else {
      FramesDone(s);
    }
  }

  lemma {:induction false} FramesLines(s: string)
    ensures forall k :: 0 <= k < |Frames(s).0| ==> NoNewline(Frames(s).0[k])
    decreases |s|
  {
    if Newline in s {
      var p := Split(s).value;
      FramesNext(s);
      FramesLines(p.1);
      var lines := Frames(s).0;
      forall k | 0 <= k < |lines|
        ensures NoNewline(lines[k])
      {
        if k > 0 {
          assert lines[k] == Frames(p.1).0[k - 1];
        }
      }
    } else {
      FramesDone(s);
    }
  }

  lemma {:induction false} JoinCons(line: string, lines: seq<string>)
    ensures Join([line] + lines) == line + [Newline] + Join(lines)
  {
    if lines != [] {
      var all := [line] + lines;
      assert all[..|all| - 1] == [line] + lines[..|lines| - 1];
      JoinCons(line, lines[..|lines| - 1]);
    } else {
      assert [line] + lines == [line];
      assert [line][..0] == [];
    }
  }

  /**
   * The cut is the only one: lines without newlines followed by a tail
   * without newline that make up s are exactly Frames(s).
   */
  lemma {:induction false} FramesUnique(s: string, lines: seq<string>, rest: string)
    requires Join(lines) + rest == s && NoNewline(rest)
    requires forall k :: 0 <= k < |lines| ==> NoNewline(lines[k])
    ensures Frames(s) == (lines, rest)
    decreases |lines|
  {
    if lines == [] {
      assert Join(lines) == [];
      assert s == rest;
      assert Split(s).None?;
    } else {
      JoinCons(lines[0], lines[1..]);
      assert lines == [lines[0]] + lines[1..];
      assert s == lines[0] + [Newline] + (Join(lines[1..]) + rest);
      SplitAt(s, lines[0], Join(lines[1..]) + rest);
      FramesUnique(Join(lines[1..]) + rest, lines[1..], rest);
    }
  }

  /** A string cut at its first newline splits there. */
  lemma {:induction false} SplitAt(s: string, line: string, rest: string)
    requires s == line + [Newline] + rest && NoNewline(line)
    ensures Split(s) == Some((line, rest))
  {
    if line == [] {
      assert s[1..] == rest;
    } else {
      assert s[0] == line[0] && s[1..] == line[1..] + [Newline] + rest;
      SplitAt(s[1..], line[1..], rest);
      assert [s[0]] + line[1..] == line;
    }
  }

  lemma {:induction false} JoinAppend(a: seq<string>, b: seq<string>)
    ensures Join(a + b) == Join(a) + Join(b)
    decreases |b|
  {
    if b == [] {
      assert a + b == a;
    } else {
      assert (a + b)[..|a + b| - 1] == a + b[..|b| - 1];
      JoinAppend(a, b[..|b| - 1]);
    }
  }

  /**
   * Cutting decoded text does not depend on how the stream was chunked:
   * the lines of a + b are the lines of a followed by those of a's tail
   * joined with b.
   */
  lemma FramesConcat(a: string, b: string)
    ensures Frames(a + b) == (Frames(a).0 + Frames(Frames(a).1 + b).0, Frames(Frames(a).1 + b).1)
  {
    var tail := Frames(a).1;
    FramesSound(a);
    FramesSound(tail + b);
    CutConcat(a, b, Frames(a).0, tail, Frames(tail + b).0, Frames(tail + b).1);
  }

  /** Lines of a with tail, then lines of tail + b with rest, are the cut of a + b. */
  lemma CutConcat(a: string, b: string, first: seq<string>, tail: string, second: seq<string>, rest: string)
    requires Join(first) + tail == a && Join(second) + rest == tail + b && NoNewline(rest)
    requires forall k :: 0 <= k < |first| ==> NoNewline(first[k])
    requires forall k :: 0 <= k < |second| ==> NoNewline(second[k])
    ensures Frames(a + b) == (first + second, rest)
  {
    JoinAppend(first, second);
    Associative(Join(first), Join(second), rest);
    Associative(Join(first), tail, b);
    NoNewlineAppend(first, second);
    FramesUnique(a + b, first + second, rest);
  }

  /**
   * Regrouping a concatenation of three strings. Stated apart so that the
   * solver meets it outside CutConcat's larger context.
   */
  lemma Associative(x: string, y: string, z: string)
    ensures x + y + z == x + (y + z)
  {
  }

  /** Lists of newline-free lines stay newline-free when concatenated. */
  lemma NoNewlineAppend(a: seq<string>, b: seq<string>)
    requires forall k :: 0 <= k < |a| ==> NoNewline(a[k])
    requires forall k :: 0 <= k < |b| ==> NoNewline(b[k])
    ensures forall k :: 0 <= k < |a + b| ==> NoNewline((a + b)[k])
  {
  }

  /** With a newline in s, the first line comes off and the rest is cut the same way. */
  lemma FramesNext(s: string)
    requires Newline in s
    ensures Frames(s).0 == [Split(s).value.0] + Frames(Split(s).value.1).0
    ensures Frames(s).1 == Frames(Split(s).value.1).1
  {
  }

  /** Taking the first line off s, after some lines already taken, keeps the cut of the whole. */
  lemma FramesTake(taken: seq<string>, s: string)
    requires Newline in s
    ensures var p := Split(s).value;
            && taken + [p.0] + Frames(p.1).0 == taken + Frames(s).0
            && Frames(p.1).1 == Frames(s).1
            && |p.1| < |s|
  {
    var p := Split(s).value;
    FramesNext(s);
    assert taken + [p.0] + Frames(p.1).0 == taken + ([p.0] + Frames(p.1).0);
  }

  /** Without a newline, s is all tail. */
  lemma FramesDone(s: string)
    requires Newline !in s
    ensures Frames(s).0 == [] && Frames(s).1 == s
  {
  }
}
