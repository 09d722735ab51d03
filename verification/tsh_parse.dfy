/**
 * parseline: split a command line into arguments. Spaces separate
 * arguments; an argument that starts with a single quote runs to the next
 * single quote; a last argument starting with '&' asks for a background job.
 */
module TshParse {

  const MAXLNSZ := 1024

  /** The buffer `parseline` scans: the line with its last character (the newline) made a space. */
  function Buffer(cmdline: string): (s: string)
    requires |cmdline| >= 1
    ensures |s| == |cmdline|
  {
    cmdline[..|cmdline| - 1] + " "
  }

  /** First position at or after `p` that is not a space (|s| at the end of the string). */
  function SkipSpaces(s: string, p: nat): (q: nat)
    requires p <= |s|
    ensures p <= q <= |s|
    decreases |s| - p
  {
    if p < |s| && s[p] == ' ' then SkipSpaces(s, p + 1) else p
  }

  /** strchr: first position at or after `p` holding `c`, or |s| (NULL) when there is none. */
  function StrChr(s: string, p: nat, c: char): (d: nat)
    requires p <= |s|
    ensures p <= d <= |s|
    decreases |s| - p
  {
    if p == |s| then |s| else if s[p] == c then p else StrChr(s, p + 1, c)
  }

  /** Whether the argument found from `p` (after the spaces) is opened by a quote. */
  predicate Quoted(s: string, p: nat)
    requires p <= |s|
  {
    SkipSpaces(s, p) < |s| && s[SkipSpaces(s, p)] == '\''
  }

  /** Where the argument found from `p` starts: after the spaces, and after an opening quote. */
  function Start(s: string, p: nat): (b: nat)
    requires p <= |s|
    ensures p <= b <= |s|
  {
    if Quoted(s, p) then SkipSpaces(s, p) + 1 else SkipSpaces(s, p)
  }

  /** Where the argument found from `p` ends: the closing quote, or the next space; |s| when there is none. */
  function Delim(s: string, p: nat): (d: nat)
    requires p <= |s|
    ensures Start(s, p) <= d <= |s|
  {
    StrChr(s, Start(s, p), if Quoted(s, p) then '\'' else ' ')
  }

  /** The arguments found from position `p` on; text after an unclosed quote is dropped. */
  function Scan(s: string, p: nat): (r: seq<string>)
    requires p <= |s|
    ensures |r| <= |s| - p
    decreases |s| - p
  {
    if Delim(s, p) == |s| then [] else [s[Start(s, p)..Delim(s, p)]] + Scan(s, Delim(s, p) + 1)
  }

  /** The result of parseline on the arguments: (argv, bg). */
  function Finish(toks: seq<string>): (r: (seq<string>, int))
    ensures r.1 == 0 || r.1 == 1
    ensures r.0 <= toks && (r.1 == 0 ==> r.0 == toks) && |toks| - 1 <= |r.0|
  {
    if toks == [] then ([], 1)
    else if toks[|toks| - 1] != [] && toks[|toks| - 1][0] == '&' then (toks[..|toks| - 1], 1)
    else (toks, 0)
  }

  /**
   * The part of parseline that runs before each argument, written once here
   * where the C code writes it twice: skip spaces from `from`, then find the
   * argument's start and its delimiter (|s| when there is none).
   */
  method NextArg(s: string, from: nat) returns (buf: nat, delim: nat)
    requires from <= |s|
    ensures buf == Start(s, from) && delim == Delim(s, from)
  {
    buf := from;
    while buf < |s| && s[buf] == ' '
      invariant from <= buf <= |s|
      invariant SkipSpaces(s, buf) == SkipSpaces(s, from)
    {
      buf := buf + 1;
    }
    assert SkipSpaces(s, from) == buf;
    if buf < |s| && s[buf] == '\'' {
      buf := buf + 1;
      delim := StrChr(s, buf, '\'');
    } else {
      delim := StrChr(s, buf, ' ');
    }
  }

  /**
   * parseline, walking the buffer with an index as the C code walks it with a
   * pointer. The C strings stored in argv are returned as values.
   */
  method ParseLine(cmdline: string) returns (argv: seq<string>, bg: int)
    requires 1 <= |cmdline| < MAXLNSZ
    requires '\0' !in cmdline
    ensures (argv, bg) == Finish(Scan(Buffer(cmdline), 0))
    ensures bg == 0 || bg == 1
  {
    var s := Buffer(cmdline);
    var buf, delim := NextArg(s, 0);
    argv := [];
    ghost var from := 0;
    while delim < |s|
      invariant from <= |s| && buf == Start(s, from) && delim == Delim(s, from)
      invariant argv + Scan(s, from) == Scan(s, 0)
      decreases |s| - from
    {
      ScanAdvance(s, argv, from, buf, delim);
      argv := argv + [s[buf..delim]];
      from := delim + 1;
      buf, delim := NextArg(s, delim + 1);
    }
    ScanEnd(s, from);
    assert argv + [] == argv;
    if |argv| == 0 {
      return argv, 1;
    }
    if argv[|argv| - 1] != [] && argv[|argv| - 1][0] == '&' {
      bg := 1;
      argv := argv[..|argv| - 1];
    } else {
      bg := 0;
    }
  }

  /** One turn of parseline's loop: the argument at hand moves to argv, the scan goes on after its delimiter. */
  lemma ScanAdvance(s: string, argv: seq<string>, p: nat, buf: nat, delim: nat)
    requires p <= |s| && buf == Start(s, p) && delim == Delim(s, p) < |s|
    ensures buf <= delim && argv + Scan(s, p) == (argv + [s[buf..delim]]) + Scan(s, delim + 1)
  {
    var tok, rest := s[buf..delim], Scan(s, delim + 1);
    assert Scan(s, p) == [tok] + rest;
    assert argv + ([tok] + rest) == (argv + [tok]) + rest;
  }

  /** The scan ends where no delimiter follows. */
  lemma ScanEnd(s: string, p: nat)
    requires p <= |s| && Delim(s, p) == |s|
    ensures Scan(s, p) == []
  {
  }

  /** Every argument the scan finds is shaped. */
  lemma {:induction false} ScanShape(s: string, p: nat)
    requires p <= |s|
    ensures forall t :: t in Scan(s, p) ==> Shaped(t)
    decreases |s| - p
  {
    var start, delim := Start(s, p), Delim(s, p);
    if delim < |s| {
      ScanShape(s, delim + 1);
      TokenShape(s, p);
      assert Scan(s, p) == [s[start..delim]] + Scan(s, delim + 1);
    }
  }

  /** What an argument found by the scan looks like: free of quotes (a quoted one), or non-empty, space-free and not opened by a quote. */
  predicate Shaped(t: string) {
    '\'' !in t || (t != [] && t[0] != '\'' && ' ' !in t)
  }

  /** The argument of one scan step is shaped. */
  lemma TokenShape(s: string, p: nat)
    requires p <= |s| && Delim(s, p) < |s|
    ensures Shaped(s[Start(s, p)..Delim(s, p)])
  {
    var start, delim := Start(s, p), Delim(s, p);
    var t := s[start..delim];
    var q := SkipSpaces(s, p);
    SkipSpacesStop(s, p);
    if q < |s| && s[q] == '\'' {
      StrChrMiss(s, q + 1, '\'');
      assert forall k :: 0 <= k < |t| ==> t[k] == s[start + k];
    } else {
      StrChrMiss(s, q, ' ');
      assert forall k :: 0 <= k < |t| ==> t[k] == s[start + k];
      assert start == q < delim;
    }
  }

  /** Skipping spaces stops on a character that is not a space, or at the end. */
  lemma {:induction false} SkipSpacesStop(s: string, p: nat)
    requires p <= |s|
    ensures SkipSpaces(s, p) < |s| ==> s[SkipSpaces(s, p)] != ' '
    decreases |s| - p
  {
    if p < |s| && s[p] == ' ' {
      SkipSpacesStop(s, p + 1);
    }
  }

  /** strchr passes over no occurrence of the character. */
  lemma {:induction false} StrChrMiss(s: string, p: nat, c: char)
    requires p <= |s|
    ensures forall k :: p <= k < StrChr(s, p, c) ==> s[k] != c
    ensures StrChr(s, p, c) < |s| ==> s[StrChr(s, p, c)] == c
    decreases |s| - p
  {
    if p < |s| && s[p] != c {
      StrChrMiss(s, p + 1, c);
    }
  }

  /** Scanning from a space is scanning from the position after it. */
  lemma ScanSkipsSpace(s: string, q: nat)
    requires q < |s| && s[q] == ' '
    ensures Scan(s, q) == Scan(s, q + 1)
  {
    assert SkipSpaces(s, q) == SkipSpaces(s, q + 1);
  }

  /** An argument written out so that parseline reads it back: bare if it can be, quoted otherwise. */
  predicate Bare(w: string) {
    w != [] && ' ' !in w
  }

  function Render(w: string): string {
    if Bare(w) then w + " " else "'" + w + "' "
  }

  function Unparse(ws: seq<string>): string {
    if ws == [] then "" else Render(ws[0]) + Unparse(ws[1..])
  }

  /** `s` holds the bare argument `w` at `p`, followed by a space. */
  ghost predicate BareAt(s: string, p: nat, w: string) {
    p + |w| < |s| && s[p + |w|] == ' ' && forall k :: 0 <= k < |w| ==> s[p + k] == w[k]
  }

  /** `s` holds the argument `w` quoted at `p`, followed by a space. */
  ghost predicate QuotedAt(s: string, p: nat, w: string) {
    && p + |w| + 2 < |s| && s[p] == '\'' && s[p + 1 + |w|] == '\'' && s[p + 2 + |w|] == ' '
    && forall k :: 0 <= k < |w| ==> s[p + 1 + k] == w[k]
  }

  /** `s` holds, from position `p` to its end, the renderings of `ws` one after the other. */
  ghost predicate RendersAt(s: string, p: nat, ws: seq<string>)
    decreases |ws|
  {
    if ws == [] then p == |s|
    else if Bare(ws[0]) then BareAt(s, p, ws[0]) && RendersAt(s, p + |ws[0]| + 1, ws[1..])
    else QuotedAt(s, p, ws[0]) && RendersAt(s, p + |ws[0]| + 3, ws[1..])
  }

  /** One bare argument: the scan takes it and goes on after its space. */
  lemma ScanBare(s: string, p: nat, w: string)
    requires BareAt(s, p, w) && Bare(w) && w[0] != '\''
    ensures Scan(s, p) == [w] + Scan(s, p + |w| + 1)
  {
    assert s[p] == w[0];
    assert SkipSpaces(s, p) == p;
    forall k | p <= k < p + |w|
      ensures s[k] != ' '
    {
      assert s[p + (k - p)] == w[k - p];
    }
    StrChrOver(s, p, p + |w|, ' ');
    assert s[p..p + |w|] == w;
  }

  /** One quoted argument: the scan takes it and goes on after its closing quote. */
  lemma ScanQuoted(s: string, p: nat, w: string)
    requires QuotedAt(s, p, w) && '\'' !in w
    ensures Scan(s, p) == [w] + Scan(s, p + |w| + 3)
  {
    assert SkipSpaces(s, p) == p;
    forall k | p + 1 <= k < p + 1 + |w|
      ensures s[k] != '\''
    {
      assert s[p + 1 + (k - p - 1)] == w[k - p - 1];
    }
    StrChrOver(s, p + 1, p + 1 + |w|, '\'');
    assert s[p + 1..p + 1 + |w|] == w;
    ScanSkipsSpace(s, p + 2 + |w|);
  }

  /** A string that holds renderings from `p` on scans back to them. */
  lemma {:induction false} ScanRenders(s: string, p: nat, ws: seq<string>)
    requires p <= |s| && RendersAt(s, p, ws)
    requires forall i :: 0 <= i < |ws| ==> '\'' !in ws[i]
    ensures Scan(s, p) == ws
    decreases |ws|
  {
    if ws == [] {
      assert SkipSpaces(s, p) == p;
    } else if Bare(ws[0]) {
      ScanRenders(s, p + |ws[0]| + 1, ws[1..]);
      ScanBare(s, p, ws[0]);
    } else {
      ScanRenders(s, p + |ws[0]| + 3, ws[1..]);
      ScanQuoted(s, p, ws[0]);
    }
  }

  /** strchr passes over a stretch that does not hold the character. */
  lemma {:induction false} StrChrOver(s: string, p: nat, d: nat, c: char)
    requires p <= d < |s| && s[d] == c
    requires forall k :: p <= k < d ==> s[k] != c
    ensures StrChr(s, p, c) == d
    decreases d - p
  {
    if p < d {
      StrChrOver(s, p + 1, d, c);
    }
  }

  /** The rendering of `ws` renders `ws`. */
  lemma {:induction false} UnparseRenders(ws: seq<string>)
    ensures RendersAt(Unparse(ws), 0, ws)
    decreases |ws|
  {
    if ws != [] {
      var w, rest := ws[0], Unparse(ws[1..]);
      assert Unparse(ws) == Render(w) + rest;
      UnparseRenders(ws[1..]);
      RendersShift(Render(w), rest, 0, ws[1..]);
      if Bare(w) {
        RenderBareAt(w, rest);
        assert RendersAt(Render(w) + rest, |w| + 1, ws[1..]);
      } else {
        RenderQuotedAt(w, rest);
        assert RendersAt(Render(w) + rest, |w| + 3, ws[1..]);
      }
    }
  }

  /** Renderings found in `t` are found, shifted, in `x + t`. */
  lemma {:induction false} RendersShift(x: string, t: string, p: nat, ws: seq<string>)
    requires RendersAt(t, p, ws)
    ensures RendersAt(x + t, |x| + p, ws)
    decreases |ws|
  {
    if ws != [] {
      var w := ws[0];
      if Bare(w) {
        RendersShift(x, t, p + |w| + 1, ws[1..]);
        assert (x + t)[|x| + p + |w|] == t[p + |w|];
        forall k | 0 <= k < |w|
          ensures (x + t)[|x| + p + k] == w[k]
        {
          assert (x + t)[|x| + p + k] == t[p + k];
        }
      } else {
        RendersShift(x, t, p + |w| + 3, ws[1..]);
        assert (x + t)[|x| + p] == t[p];
        assert (x + t)[|x| + p + 1 + |w|] == t[p + 1 + |w|];
        assert (x + t)[|x| + p + 2 + |w|] == t[p + 2 + |w|];
        forall k | 0 <= k < |w|
          ensures (x + t)[|x| + p + 1 + k] == w[k]
        {
          assert (x + t)[|x| + p + 1 + k] == t[p + 1 + k];
        }
      }
    }
  }

  /** A bare rendering holds its argument at its start. */
  lemma RenderBareAt(w: string, rest: string)
    requires Bare(w)
    ensures BareAt(Render(w) + rest, 0, w)
    ensures |Render(w)| == |w| + 1
  {
    var s := Render(w) + rest;
    forall k | 0 <= k < |w|
      ensures s[k] == w[k]
    {
      assert s[k] == Render(w)[k];
    }
    assert s[|w|] == Render(w)[|w|];
  }

  /** A quoted rendering holds its argument after its opening quote. */
  lemma RenderQuotedAt(w: string, rest: string)
    requires !Bare(w)
    ensures QuotedAt(Render(w) + rest, 0, w)
    ensures |Render(w)| == |w| + 3
  {
    var s := Render(w) + rest;
    forall k | 0 <= k < |w|
      ensures s[1 + k] == w[k]
    {
      assert s[1 + k] == Render(w)[1 + k];
    }
    assert s[0] == Render(w)[0];
    assert s[1 + |w|] == Render(w)[1 + |w|];
    assert s[2 + |w|] == Render(w)[2 + |w|];
  }

  /** Round trip: scanning the rendering of quote-free arguments gives them back. */
  lemma ScanUnparse(ws: seq<string>)
    requires forall i :: 0 <= i < |ws| ==> '\'' !in ws[i]
    ensures Scan(Unparse(ws), 0) == ws
  {
    UnparseRenders(ws);
    ScanRenders(Unparse(ws), 0, ws);
  }
}
