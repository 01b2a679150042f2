/**
 * The two Go string primitives the playbook renderer relies on, as pure
 * functions over `string` (= `seq<char>`):
 *   - `strings.ReplaceAll(s, "\r", "")`  is StripCR
 *   - `strings.Split(s, "\n")`           is Split, with Join as its inverse
 * plus the indentation that wraps every split piece as `"  " + piece + "\n"`.
 */
module Text {

  /** Number of occurrences of `c` in `s`. */
  function Count(s: string, c: char): (n: nat)
    ensures n <= |s|
    ensures n == 0 <==> c !in s
  {
    if s == [] then 0 else (if s[0] == c then 1 else 0) + Count(s[1..], c)
  }

  lemma {:induction false} CountAppend(a: string, b: string, c: char)
    ensures Count(a + b, c) == Count(a, c) + Count(b, c)
  {
    if a == [] {
      assert a + b == b;
    } else {
      assert (a + b)[1..] == a[1..] + b;
      CountAppend(a[1..], b, c);
    }
  }

  /** `strings.ReplaceAll(s, "\r", "")`: every carriage return removed, every other character kept. */
  function StripCR(s: string): (r: string)
    ensures '\r' !in r
    ensures |r| == |s| - Count(s, '\r')
    ensures forall c :: c != '\r' ==> Count(r, c) == Count(s, c)
    ensures '\r' !in s ==> r == s
  {
    if s == [] then []
    else if s[0] == '\r' then StripCR(s[1..])
    else
      var rest := StripCR(s[1..]);
      assert ([s[0]] + rest)[1..] == rest;
      [s[0]] + rest
  }

  /** Removing carriage returns piece by piece is the same as removing them from the whole. */
  lemma {:induction false} StripCRAppend(a: string, b: string)
    ensures StripCR(a + b) == StripCR(a) + StripCR(b)
  {
    if a == [] {
      assert a + b == b;
    } else {
      assert (a + b)[0] == a[0];
      assert (a + b)[1..] == a[1..] + b;
      StripCRAppend(a[1..], b);
    }
  }

  /**
   * `strings.Split(s, "\n")`: the maximal newline-free pieces between the
   * separators, in order. There is always one more piece than separators, so
   * the empty string splits into the single piece "".
   */
  function Split(s: string): (r: seq<string>)
    ensures |r| == Count(s, '\n') + 1
    ensures forall i :: 0 <= i < |r| ==> '\n' !in r[i]
  {
    if s == [] then [""]
    else
      var rest := Split(s[1..]);
      if s[0] == '\n' then [""] + rest
      else [[s[0]] + rest[0]] + rest[1..]
  }

  /** `strings.Join(ps, "\n")`. */
  function Join(ps: seq<string>): string
    requires |ps| >= 1
  {
    if |ps| == 1 then ps[0] else ps[0] + "\n" + Join(ps[1..])
  }

  predicate NoNewlines(ps: seq<string>)
  {
    forall i :: 0 <= i < |ps| ==> '\n' !in ps[i]
  }

  /** Joining the pieces back with "\n" gives the original string. */
  lemma {:induction false} JoinSplit(s: string)
    ensures Join(Split(s)) == s
  {
    if s != [] {
      var rest := Split(s[1..]);
      JoinSplit(s[1..]);
      if s[0] == '\n' {
        assert Split(s)[1..] == rest;
        assert s == "\n" + s[1..];
      } else if |rest| == 1 {
        assert s == [s[0]] + s[1..];
      } else {
        var r := Split(s);
        assert r[1..] == rest[1..];
        assert Join(rest) == rest[0] + "\n" + Join(rest[1..]);
        assert s == [s[0]] + s[1..];
      }
    }
  }

  /** A newline-free string is one piece. */
  lemma {:induction false} SplitSingle(p: string)
    requires '\n' !in p
    ensures Split(p) == [p]
  {
    if p != [] {
      assert '\n' !in p[1..] by { assert forall i :: 0 <= i < |p[1..]| ==> p[1..][i] == p[i + 1]; }
      SplitSingle(p[1..]);
      assert p == [p[0]] + p[1..];
    }
  }

  /** Splitting `p + "\n" + t` with newline-free `p` yields `p` followed by the pieces of `t`. */
  lemma {:induction false} SplitCons(p: string, t: string)
    requires '\n' !in p
    ensures Split(p + "\n" + t) == [p] + Split(t)
  {
    var s := p + "\n" + t;
    if p == [] {
      assert s == "\n" + t;
      assert s[1..] == t;
    } else {
      var q := p[1..];
      assert p == [p[0]] + q;
      assert s[1..] == q + "\n" + t;
      assert '\n' !in q by { assert forall c :: c in q ==> c in p; }
      SplitCons(q, t);
      var rest := Split(s[1..]);
      assert rest == [q] + Split(t);
      assert rest[0] == q && rest[1..] == Split(t);
      assert s[0] == p[0] && s[0] != '\n';
      assert Split(s) == [[s[0]] + rest[0]] + rest[1..];
    }
  }

  /** Split inverts Join on newline-free pieces. */
  lemma {:induction false} SplitJoin(ps: seq<string>)
    requires |ps| >= 1 && NoNewlines(ps)
    ensures Split(Join(ps)) == ps
  {
    if |ps| == 1 {
      SplitSingle(ps[0]);
    } else {
      SplitJoin(ps[1..]);
      SplitCons(ps[0], Join(ps[1..]));
      assert ps == [ps[0]] + ps[1..];
    }
  }

  /** What one loop iteration of the renderer writes for a piece. */
  function IndentLine(p: string): string
  {
    "  " + p + "\n"
  }

  /** The concatenation, in order, of `"  " + p + "\n"` for every piece `p`. */
  function Indent(ps: seq<string>): string
  {
    if ps == [] then "" else IndentLine(ps[0]) + Indent(ps[1..])
  }

  /** Each piece with two leading spaces, as it appears as a line of the rendered text. */
  function Indented(ps: seq<string>): (ls: seq<string>)
    ensures |ls| == |ps|
    ensures forall i :: 0 <= i < |ps| ==> |ls[i]| == |ps[i]| + 2 && ls[i][..2] == "  " && ls[i][2..] == ps[i]
  {
    seq(|ps|, i requires 0 <= i < |ps| => "  " + ps[i])
  }

  /** The inverse of Indented on lines that start with two spaces. */
  function Dedented(ls: seq<string>): (ps: seq<string>)
    requires forall i :: 0 <= i < |ls| ==> |ls[i]| >= 2
    ensures |ps| == |ls|
  {
    seq(|ls|, i requires 0 <= i < |ls| => ls[i][2..])
  }

  lemma {:induction false} IndentSnoc(ps: seq<string>, p: string)
    ensures Indent(ps + [p]) == Indent(ps) + IndentLine(p)
  {
    if ps == [] {
      assert ps + [p] == [p];
    } else {
      assert (ps + [p])[1..] == ps[1..] + [p];
      IndentSnoc(ps[1..], p);
    }
  }

  /** The indented text is the indented lines joined by "\n" and closed by a final "\n". */
  lemma {:induction false} IndentIsJoin(ps: seq<string>)
    ensures Indent(ps) == Join(Indented(ps) + [""])
  {
    if ps != [] {
      IndentIsJoin(ps[1..]);
      assert (Indented(ps) + [""])[1..] == Indented(ps[1..]) + [""];
    }
  }

  /**
   * Splitting indented text on "\n" gives back exactly one line `"  " + p`
   * per piece, in order, and the empty remainder after the last "\n".
   */
  lemma SplitIndent(ps: seq<string>)
    requires NoNewlines(ps)
    ensures Split(Indent(ps)) == Indented(ps) + [""]
  {
    IndentIsJoin(ps);
    var ls := Indented(ps) + [""];
    forall i | 0 <= i < |ls| ensures '\n' !in ls[i] {
      if i < |ps| {
        assert ls[i] == "  " + ps[i];
      }
    }
    SplitJoin(ls);
  }

  lemma DedentIndent(ps: seq<string>)
    ensures Dedented(Indented(ps)) == ps
  {
  }
}
