/**
 * The text `createTask` writes to disk for a new task: the playbook
 * (`site.yaml`), which wraps the submitted steps in a fixed one-play
 * skeleton, and the inventory (`inventory.ini`), which puts the submitted
 * host lines under a fixed `[servers]` group.
 */
module Materialise {
  import opened Wrappers
  import opened Variants
  import opened Text

  /**
   * The skeleton written before the submitted steps. It has no carriage return
   * and ends with a newline, so the first step starts a line of its own.
   */
  function Header(v: Variant): (r: string)
    ensures r != [] && r[|r| - 1] == '\n'
    ensures '\r' !in r
  {
    match v
    case Root => "- hosts: servers\n" + "  gather_facts: false\n" + "  tasks:\n"
    case Web => "- hosts: servers\n" + "  tasks:\n"
  }

  /**
   * The header is the hosts line, then the tasks line; only the top-level copy
   * puts the line disabling fact gathering between them.
   */
  lemma HeaderShape(v: Variant)
    ensures var h := Header(v);
      26 <= |h| && h[..17] == "- hosts: servers\n" && h[|h| - 9..] == "  tasks:\n" &&
      h[17..|h| - 9] == if v == Root then "  gather_facts: false\n" else ""
  {
  }

  /** The host group every inventory is put under. */
  const InventoryHeader: string := "[servers]\n"

  /**
   * The playbook file for a submitted body: the header, then every
   * `\n`-separated piece of the body with carriage returns removed, indented
   * by two spaces and ended by a newline.
   */
  function PlaybookText(v: Variant, body: string): (r: string)
    ensures |Header(v)| <= |r| && r[..|Header(v)|] == Header(v)
  {
    Header(v) + Indent(Split(StripCR(body)))
  }

  /**
   * The buffer-building loop of `createTask`: the header lines are written
   * one by one, then one `"  " + piece + "\n"` per piece of the CR-stripped body.
   */
  method RenderPlaybook(v: Variant, body: string) returns (w: string)
    ensures w == PlaybookText(v, body)
  {
    w := "- hosts: servers\n";
    if v == Root {
      w := w + "  gather_facts: false\n";
    }
    w := w + "  tasks:\n";
    assert w == Header(v);
    var stripped := StripCR(body);
    var pieces := Split(stripped);
    var i := 0;
    while i < |pieces|
      invariant 0 <= i <= |pieces|
      invariant w == Header(v) + Indent(pieces[..i])
    {
      RenderStep(Header(v), pieces, i);
      w := w + IndentLine(pieces[i]);
      i := i + 1;
    }
    assert pieces[..i] == pieces;
  }

  /** One turn of the rendering loop appends the next indented line to what is already written. */
  lemma RenderStep(head: string, pieces: seq<string>, i: nat)
    requires i < |pieces|
    ensures head + Indent(pieces[..i + 1]) == (head + Indent(pieces[..i])) + IndentLine(pieces[i])
  {
    assert pieces[..i + 1] == pieces[..i] + [pieces[i]];
    IndentSnoc(pieces[..i], pieces[i]);
  }

  lemma {:induction false} SplitAvoids(s: string, c: char)
    requires c != '\n' && c !in s
    ensures forall i :: 0 <= i < |Split(s)| ==> c !in Split(s)[i]
  {
    if s != [] {
      assert forall x :: x in s[1..] ==> x in s;
      SplitAvoids(s[1..], c);
    }
  }

  lemma {:induction false} IndentAvoids(ps: seq<string>, c: char)
    requires c != ' ' && c != '\n'
    requires forall i :: 0 <= i < |ps| ==> c !in ps[i]
    ensures c !in Indent(ps)
  {
    if ps != [] {
      IndentAvoids(ps[1..], c);
    }
  }

  lemma {:induction false} IndentCount(ps: seq<string>)
    requires NoNewlines(ps)
    ensures Count(Indent(ps), '\n') == |ps|
  {
    if ps != [] {
      IndentCount(ps[1..]);
      CountAppend("  " + ps[0], "\n", '\n');
      CountAppend("  ", ps[0], '\n');
      CountAppend(IndentLine(ps[0]), Indent(ps[1..]), '\n');
    }
  }

  /** The rendered playbook contains no carriage return, whatever the submitted body. */
  lemma PlaybookHasNoCR(v: Variant, body: string)
    ensures '\r' !in PlaybookText(v, body)
  {
    var ps := Split(StripCR(body));
    SplitAvoids(StripCR(body), '\r');
    IndentAvoids(ps, '\r');
  }

  /**
   * After the header, the lines of the rendered playbook are exactly
   * `"  " + L` for each piece L of the CR-stripped body, in order, followed
   * by the empty remainder after the final newline.
   */
  lemma PlaybookLines(v: Variant, body: string)
    ensures PlaybookText(v, body)[|Header(v)|..] == Indent(Split(StripCR(body)))
    ensures Split(PlaybookText(v, body)[|Header(v)|..]) == Indented(Split(StripCR(body))) + [""]
  {
    var ps := Split(StripCR(body));
    assert PlaybookText(v, body)[|Header(v)|..] == Indent(ps);
    SplitIndent(ps);
  }

  /**
   * The body contributes one line per `\n` in the submitted text plus one, so
   * an empty body still yields one (indented, empty) line.
   */
  lemma PlaybookLineCount(v: Variant, body: string)
    ensures Count(PlaybookText(v, body), '\n') == Count(Header(v), '\n') + Count(body, '\n') + 1
  {
    var ps := Split(StripCR(body));
    IndentCount(ps);
    CountAppend(Header(v), Indent(ps), '\n');
  }

  lemma EmptyBody(v: Variant)
    ensures PlaybookText(v, "") == Header(v) + "  \n"
  {
  }

  /** Every line carries the two-space indent. */
  predicate AllIndented(ls: seq<string>)
  {
    forall i :: 0 <= i < |ls| ==> |ls[i]| >= 2 && ls[i][..2] == "  "
  }

  /**
   * Reads the submitted steps back from the indented part of a playbook:
   * split into lines, require the text to end in a newline and every line to
   * carry the two-space indent, remove the indent and rejoin with `\n`.
   */
  function Unindent(s: string): Option<string>
  {
    var lines := Split(s);
    var n := |lines| - 1;
    if n >= 1 && lines[n] == "" && AllIndented(lines[..n]) then Some(Join(Dedented(lines[..n])))
    else None
  }

  /** Reads the submitted steps back from a rendered playbook: check and drop the header, then unindent. */
  function RecoverBody(v: Variant, text: string): Option<string>
  {
    var h := Header(v);
    if |text| < |h| || text[..|h|] != h then None else Unindent(text[|h|..])
  }

  /** Unindenting an indented block of newline-free pieces gives back the pieces joined by `\n`. */
  lemma UnindentIndent(ps: seq<string>)
    requires |ps| >= 1 && NoNewlines(ps)
    ensures Unindent(Indent(ps)) == Some(Join(ps))
  {
    SplitIndent(ps);
    var lines := Split(Indent(ps));
    var n := |lines| - 1;
    assert n == |ps| && lines[n] == "";
    assert lines[..n] == Indented(ps);
    assert AllIndented(lines[..n]);
    DedentIndent(ps);
  }

  /** Rendering loses nothing but the carriage returns: the body reads back exactly, CR-stripped. */
  lemma PlaybookRoundTrip(v: Variant, body: string)
    ensures RecoverBody(v, PlaybookText(v, body)) == Some(StripCR(body))
  {
    var ps := Split(StripCR(body));
    PlaybookLines(v, body);
    UnindentIndent(ps);
    JoinSplit(StripCR(body));
  }

  /** The inventory file: the `[servers]` line, then the submitted body verbatim. */
  function InventoryText(body: string): (r: string)
    ensures |r| == |InventoryHeader| + |body|
    ensures r[..|InventoryHeader|] == InventoryHeader && r[|InventoryHeader|..] == body
  {
    InventoryHeader + body
  }

  /**
   * The inventory body is not normalised: its carriage returns survive, and no
   * newline is added after it (the only newline of its own is the header's).
   */
  lemma InventoryVerbatim(body: string)
    ensures Count(InventoryText(body), '\r') == Count(body, '\r')
    ensures Count(InventoryText(body), '\n') == Count(body, '\n') + 1
    ensures body != [] ==> InventoryText(body)[|InventoryText(body)| - 1] == body[|body| - 1]
  {
    CountAppend(InventoryHeader, body, '\r');
    CountAppend(InventoryHeader, body, '\n');
  }

  /** A two-line body renders as the header followed by its two lines, each indented one level deeper. */
  lemma TwoLineBody(v: Variant, a: string, b: string)
    requires '\n' !in a && '\n' !in b && '\r' !in a && '\r' !in b
    ensures PlaybookText(v, a + "\n" + b) == Header(v) + IndentLine(a) + IndentLine(b)
  {
    var body := a + "\n" + b;
    assert '\r' !in body by {
      assert forall c :: c in body ==> c in a || c == '\n' || c in b;
    }
    SplitCons(a, b);
    SplitSingle(b);
    var ps := Split(body);
    assert StripCR(body) == body;
    assert ps == [a, b];
    calc {
      Indent(ps);
      IndentLine(a) + Indent([b]);
      { assert [b][1..] == []; }
      IndentLine(a) + (IndentLine(b) + "");
      IndentLine(a) + IndentLine(b);
    }
  }

  /** The sample submission in the top-level copy: the three-line header, then the two steps indented. */
  lemma RootPingExample()
    ensures PlaybookText(Root, "- name: ping\n  ping:")
         == "- hosts: servers\n" + "  gather_facts: false\n" + "  tasks:\n" + "  - name: ping\n" + "    ping:\n"
  {
    var a, b := "- name: ping", "  ping:";
    assert a + "\n" + b == "- name: ping\n  ping:";
    assert '\n' !in a && '\n' !in b && '\r' !in a && '\r' !in b;
    assert IndentLine(a) == "  - name: ping\n";
    assert IndentLine(b) == "    ping:\n";
    TwoLineBody(Root, a, b);
  }

  /** The sample submission in the web copy: the two-line header without fact gathering, then the two steps. */
  lemma WebPingExample()
    ensures PlaybookText(Web, "- name: ping\n  ping:")
         == "- hosts: servers\n" + "  tasks:\n" + "  - name: ping\n" + "    ping:\n"
  {
    var a, b := "- name: ping", "  ping:";
    assert a + "\n" + b == "- name: ping\n  ping:";
    assert '\n' !in a && '\n' !in b && '\r' !in a && '\r' !in b;
    assert IndentLine(a) == "  - name: ping\n";
    assert IndentLine(b) == "    ping:\n";
    TwoLineBody(Web, a, b);
  }
}
