/**
 * The JavaScript string operations the transformer relies on, for a
 * one-character separator: `String.prototype.split`, `Array.prototype.join`,
 * and a count of occurrences used to state how many pieces a split returns.
 */
module JsStrings {

  /** Number of occurrences of `c` in `s`. */
  function Count(s: string, c: char): (n: nat)
    ensures n <= |s|
    ensures n == 0 <==> c !in s
  {
    if s == [] then 0 else (if s[0] == c then 1 else 0) + Count(s[1..], c)
  }

  lemma {:induction false} CountConcat(a: string, b: string, c: char)
    ensures Count(a + b, c) == Count(a, c) + Count(b, c)
  {
    if a == [] {
      assert a + b == b;
    } else {
      assert (a + b)[1..] == a[1..] + b;
      CountConcat(a[1..], b, c);
    }
  }

  /** `parts` with `c` between consecutive elements, as `parts.join(c)`. */
  function Join(parts: seq<string>, c: char): string
  {
    if |parts| == 0 then ""
    else if |parts| == 1 then parts[0]
    else parts[0] + [c] + Join(parts[1..], c)
  }

  /**
   * `s.split(c)`: the maximal pieces of `s` between occurrences of `c`.
   * There is always one piece more than there are separators, so the empty
   * string splits into one empty piece.
   */
  function Split(s: string, c: char): (parts: seq<string>)
    ensures |parts| == Count(s, c) + 1
    ensures forall i :: 0 <= i < |parts| ==> c !in parts[i]
  {
    if s == [] then [""]
    else
      var rest := Split(s[1..], c);
      if s[0] == c then
        assert ([""] + rest)[1..] == rest;
        [""] + rest
      else
        assert ([[s[0]] + rest[0]] + rest[1..])[1..] == rest[1..];
        [[s[0]] + rest[0]] + rest[1..]
  }

  lemma JoinCons(x: string, rest: seq<string>, c: char)
    requires |rest| > 0
    ensures Join([x] + rest, c) == x + [c] + Join(rest, c)
  {
    assert ([x] + rest)[1..] == rest;
  }

  lemma JoinGrowsHead(d: char, rest: seq<string>, c: char)
    requires |rest| > 0
    ensures Join([[d] + rest[0]] + rest[1..], c) == [d] + Join(rest, c)
  {
    var parts := [[d] + rest[0]] + rest[1..];
    assert parts[1..] == rest[1..];
  }

  /** Joining the pieces of a split with its separator gives back the string. */
  lemma {:induction false} SplitJoinsBack(s: string, c: char)
    ensures Join(Split(s, c), c) == s
  {
    if s != [] {
      var rest := Split(s[1..], c);
      SplitJoinsBack(s[1..], c);
      assert s == [s[0]] + s[1..];
      if s[0] == c {
        JoinCons("", rest, c);
      } else {
        JoinGrowsHead(s[0], rest, c);
      }
    }
  }

  /** A character absent from `s` is absent from every piece of its split. */
  lemma {:induction false} SplitPiecesAvoid(s: string, c: char, d: char)
    requires d !in s
    ensures forall i :: 0 <= i < |Split(s, c)| ==> d !in Split(s, c)[i]
  {
    if s != [] {
      assert s[0] != d;
      SplitPiecesAvoid(s[1..], c, d);
    }
  }

  /** A string without the separator splits into itself. */
  lemma {:induction false} SplitWithoutSeparator(s: string, c: char)
    requires c !in s
    ensures Split(s, c) == [s]
  {
    if s != [] {
      SplitWithoutSeparator(s[1..], c);
      assert s == [s[0]] + s[1..];
    }
  }

  /** Splitting stops at the first separator: the piece before it is `a` when `a` holds no separator. */
  lemma {:induction false} SplitAtFirst(a: string, c: char, t: string)
    requires c !in a
    ensures Split(a + [c] + t, c) == [a] + Split(t, c)
  {
    if a == [] {
      assert a + [c] + t == [c] + t;
      assert ([c] + t)[1..] == t;
    } else {
      var s := a + [c] + t;
      assert s[0] == a[0] && s[1..] == a[1..] + [c] + t;
      SplitAtFirst(a[1..], c, t);
      var rest := Split(s[1..], c);
      assert rest[0] == a[1..] && rest[1..] == Split(t, c);
      assert [a[0]] + a[1..] == a;
      assert Split(s, c) == [[a[0]] + rest[0]] + rest[1..];
    }
  }

  /** `split` undoes `join` of a non-empty list of parts when no part contains the separator. */
  lemma {:induction false} SplitJoin(parts: seq<string>, c: char)
    requires |parts| > 0
    requires forall i :: 0 <= i < |parts| ==> c !in parts[i]
    ensures Split(Join(parts, c), c) == parts
  {
    if |parts| == 1 {
      SplitWithoutSeparator(parts[0], c);
    } else {
      SplitJoin(parts[1..], c);
      SplitAtFirst(parts[0], c, Join(parts[1..], c));
      assert [parts[0]] + parts[1..] == parts;
    }
  }

  /** A character other than the separator that no part holds is not in the joined string. */
  lemma {:induction false} JoinAvoids(parts: seq<string>, c: char, d: char)
    requires d != c
    requires forall i :: 0 <= i < |parts| ==> d !in parts[i]
    ensures d !in Join(parts, c)
  {
    if |parts| > 1 {
      JoinAvoids(parts[1..], c, d);
    }
  }

  /** Every line followed by the terminator `c`. */
  function Terminated(lines: seq<string>, c: char): string
  {
    if lines == [] then "" else lines[0] + [c] + Terminated(lines[1..], c)
  }

  lemma {:induction false} TerminatedIsJoin(lines: seq<string>, c: char)
    requires |lines| > 0
    ensures Terminated(lines, c) == Join(lines, c) + [c]
  {
    if |lines| > 1 {
      TerminatedIsJoin(lines[1..], c);
    }
  }

  /**
   * Splitting terminated text gives back the lines plus one empty piece
   * after the last terminator.
   */
  lemma {:induction false} SplitTerminated(lines: seq<string>, c: char)
    requires forall i :: 0 <= i < |lines| ==> c !in lines[i]
    ensures Split(Terminated(lines, c), c) == lines + [""]
  {
    if lines != [] {
      SplitTerminated(lines[1..], c);
      SplitAtFirst(lines[0], c, Terminated(lines[1..], c));
      assert [lines[0]] + lines[1..] == lines;
    }
  }
}
