/**
 * The two string primitives the `TEST_ONLY` tokeniser relies on:
 * `String.prototype.trim` and `String.prototype.split(/\s+/)`, over a fixed
 * set of whitespace characters.
 */
module Text {

  /** Whitespace as this model recognises it: space, tab, line feed,
      vertical tab, form feed and carriage return. */
  predicate IsSpace(c: char)
  {
    c == ' ' || c == '\t' || c == '\n' || c == '\U{000B}' || c == '\U{000C}' || c == '\r'
  }

  ghost predicate AllSpace(s: string)
  {
    forall i :: 0 <= i < |s| ==> IsSpace(s[i])
  }

  ghost predicate NoSpace(s: string)
  {
    forall i :: 0 <= i < |s| ==> !IsSpace(s[i])
  }

  /** Neither starts nor ends with whitespace. */
  predicate Trimmed(s: string)
  {
    s == [] || (!IsSpace(s[0]) && !IsSpace(s[|s| - 1]))
  }

  /** Number of whitespace characters at the end of `s`. */
  function TrailingSpace(s: string): (n: nat)
    ensures n <= |s|
    ensures forall i :: |s| - n <= i < |s| ==> IsSpace(s[i])
    ensures n < |s| ==> !IsSpace(s[|s| - 1 - n])
  {
    if s != [] && IsSpace(s[|s| - 1]) then 1 + TrailingSpace(s[..|s| - 1]) else 0
  }

  /** `s.trim()`: `s` without its leading and trailing whitespace. The result
      is empty exactly when `s` is all whitespace. */
  function Trim(s: string): (r: string)
    ensures Trimmed(r)
    ensures r == [] <==> AllSpace(s)
  {
    var a := GapLength(s);
    if a == |s| then [] else s[a..|s| - TrailingSpace(s)]
  }

  /** Length of the longest prefix of `s` that holds no whitespace. */
  function WordLength(s: string): (n: nat)
    ensures n <= |s|
    ensures forall i :: 0 <= i < n ==> !IsSpace(s[i])
    ensures n < |s| ==> IsSpace(s[n])
  {
    if s == [] || IsSpace(s[0]) then 0 else 1 + WordLength(s[1..])
  }

  /** Length of the longest prefix of `s` that is all whitespace. */
  function GapLength(s: string): (n: nat)
    ensures n <= |s|
    ensures forall i :: 0 <= i < n ==> IsSpace(s[i])
    ensures n < |s| ==> !IsSpace(s[n])
  {
    if s != [] && IsSpace(s[0]) then 1 + GapLength(s[1..]) else 0
  }

  /** `s.split(/\s+/)`: the pieces of `s` between maximal runs of whitespace.
      There is always at least one piece: `"".split(/\s+/)` is `[""]`. */
  function Split(s: string): (r: seq<string>)
    ensures |r| >= 1
    ensures s == [] ==> r == [""]
    decreases |s|
  {
    if WordLength(s) == |s| then [s]
    else [s[..WordLength(s)]] + Split(s[Cut(s)..])
  }

  /** Where `Split` goes on after the first piece: past the first word and
      the whitespace run that ends it. */
  function Cut(s: string): (c: nat)
    requires WordLength(s) < |s|
    ensures WordLength(s) < c <= |s|
  {
    var n := WordLength(s);
    assert s[n..][0] == s[n];
    n + GapLength(s[n..])
  }

  /** The tokens of `TEST_ONLY`: `s.trim().split(/\s+/)`. */
  function Tokens(s: string): (r: seq<string>)
    ensures |r| >= 1
  {
    Split(Trim(s))
  }

  /** Pieces with the gaps between them put back: `ps[0] + gs[0] + ps[1] + ...`. */
  function Interleave(ps: seq<string>, gs: seq<string>): string
    requires |ps| == |gs| + 1
    decreases |gs|
  {
    if gs == [] then ps[0] else ps[0] + gs[0] + Interleave(ps[1..], gs[1..])
  }

  /** What `split(/\s+/)` does to any string: between consecutive pieces
      lies a non-empty run of whitespace, and the pieces with those runs put
      back between them rebuild `s` exactly. */
  lemma {:induction false} SplitRebuilds(s: string) returns (gaps: seq<string>)
    ensures |gaps| == |Split(s)| - 1
    ensures forall k :: 0 <= k < |gaps| ==> gaps[k] != [] && AllSpace(gaps[k])
    ensures Interleave(Split(s), gaps) == s
    decreases |s|
  {
    if WordLength(s) == |s| {
      gaps := [];
    } else {
      var n, c := WordLength(s), Cut(s);
      GapRun(s);
      var more := SplitRebuilds(s[c..]);
      gaps := [s[n..c]] + more;
      GapsCons(s[n..c], more);
      RebuildStep(s, more);
    }
  }

  /** A non-empty whitespace run in front of such runs. */
  lemma GapsCons(gap: string, more: seq<string>)
    requires gap != [] && AllSpace(gap)
    requires forall k :: 0 <= k < |more| ==> more[k] != [] && AllSpace(more[k])
    ensures forall k :: 0 <= k < |[gap] + more| ==> ([gap] + more)[k] != [] && AllSpace(([gap] + more)[k])
  {
  }

  /** One step of `SplitRebuilds`: the first word and its whitespace run
      in front of the rebuilt rest give back `s`. */
  lemma RebuildStep(s: string, more: seq<string>)
    requires WordLength(s) < |s|
    requires |more| == |Split(s[Cut(s)..])| - 1
    requires Interleave(Split(s[Cut(s)..]), more) == s[Cut(s)..]
    ensures |[s[WordLength(s)..Cut(s)]] + more| == |Split(s)| - 1
    ensures Interleave(Split(s), [s[WordLength(s)..Cut(s)]] + more) == s
  {
    var n, c := WordLength(s), Cut(s);
    SplitStep(s);
    InterleaveCons(s[..n], s[n..c], Split(s[c..]), more);
    ThreeParts(s, n, c);
  }

  /** The run between the first word and the cut is all whitespace, and
      the cut is at the end or at a non-whitespace character. */
  lemma GapRun(s: string)
    requires WordLength(s) < |s|
    ensures s[WordLength(s)..Cut(s)] != [] && AllSpace(s[WordLength(s)..Cut(s)])
    ensures Cut(s) < |s| ==> !IsSpace(s[Cut(s)])
  {
    var n, c := WordLength(s), Cut(s);
    var g := GapLength(s[n..]);
    assert c == n + g;
    var gap := s[n..c];
    forall i | 0 <= i < |gap| ensures IsSpace(gap[i]) {
      assert gap[i] == s[n..][i];
    }
    if c < |s| {
      assert s[c] == s[n..][g];
    }
  }

  lemma ThreeParts(s: string, i: nat, j: nat)
    requires i <= j <= |s|
    ensures s[..i] + s[i..j] + s[j..] == s
  {
    assert s[..i] + s[i..j] == s[..j];
  }

  /** No piece of `Split(s)` holds whitespace, and only the first and the
      last piece can be empty (from leading or trailing whitespace). */
  lemma {:induction false} SplitNoSpace(s: string)
    ensures forall k :: 0 <= k < |Split(s)| ==> NoSpace(Split(s)[k])
    ensures forall k :: 0 < k < |Split(s)| - 1 ==> Split(s)[k] != []
    decreases |s|
  {
    if WordLength(s) == |s| {
      SplitOfWord(s);
    } else {
      SplitNoSpace(s[Cut(s)..]);
      RestLeadsWithWord(s);
      SplitStep(s);
      PiecesCons(s[..WordLength(s)], Split(s[Cut(s)..]));
    }
  }

  /** What follows the first whitespace run starts with a word, so when it
      splits into more than one piece the first of them is not empty. */
  lemma RestLeadsWithWord(s: string)
    requires WordLength(s) < |s|
    requires forall k :: 0 < k < |Split(s[Cut(s)..])| - 1 ==> Split(s[Cut(s)..])[k] != []
    ensures forall k :: 0 <= k < |Split(s[Cut(s)..])| - 1 ==> Split(s[Cut(s)..])[k] != []
  {
    var rest := s[Cut(s)..];
    if WordLength(rest) < |rest| {
      GapRun(s);
      assert rest[0] == s[Cut(s)];
      SplitStep(rest);
    }
  }

  /** The pieces are determined by the input: any way of writing a string
      as whitespace-free pieces, of which only the first and the last may be
      empty, separated by non-empty whitespace runs, is the one `Split` gives. */
  lemma {:induction false} SplitUnique(ps: seq<string>, gs: seq<string>)
    requires |ps| == |gs| + 1
    requires forall k :: 0 <= k < |ps| ==> NoSpace(ps[k])
    requires forall k :: 0 < k < |ps| - 1 ==> ps[k] != []
    requires forall k :: 0 <= k < |gs| ==> gs[k] != [] && AllSpace(gs[k])
    ensures Split(Interleave(ps, gs)) == ps
    decreases |gs|
  {
    if gs == [] {
      SplitOfWord(ps[0]);
    } else {
      TailPieces(ps, gs);
      SplitUnique(ps[1..], gs[1..]);
      UniqueStep(ps, gs);
    }
  }

  /** The pieces and runs after the first ones meet the same conditions. */
  lemma TailPieces(ps: seq<string>, gs: seq<string>)
    requires |ps| == |gs| + 1 && gs != []
    requires forall k :: 0 <= k < |ps| ==> NoSpace(ps[k])
    requires forall k :: 0 < k < |ps| - 1 ==> ps[k] != []
    requires forall k :: 0 <= k < |gs| ==> gs[k] != [] && AllSpace(gs[k])
    ensures forall k :: 0 <= k < |ps[1..]| ==> NoSpace(ps[1..][k])
    ensures forall k :: 0 < k < |ps[1..]| - 1 ==> ps[1..][k] != []
    ensures forall k :: 0 <= k < |gs[1..]| ==> gs[1..][k] != [] && AllSpace(gs[1..][k])
  {
    assert forall k :: 0 <= k < |ps[1..]| ==> ps[1..][k] == ps[k + 1];
    assert forall k :: 0 <= k < |gs[1..]| ==> gs[1..][k] == gs[k + 1];
  }

  /** One step of `SplitUnique`: the first piece and run in front of the
      rest, which splits back into the remaining pieces. */
  lemma UniqueStep(ps: seq<string>, gs: seq<string>)
    requires |ps| == |gs| + 1 && gs != []
    requires NoSpace(ps[0]) && NoSpace(ps[1])
    requires |ps| > 2 ==> ps[1] != []
    requires gs[0] != [] && AllSpace(gs[0])
    requires Split(Interleave(ps[1..], gs[1..])) == ps[1..]
    ensures Split(Interleave(ps, gs)) == ps
  {
    var t := Interleave(ps[1..], gs[1..]);
    InterleaveLead(ps[1..], gs[1..]);
    SplitCons(ps[0], gs[0], t);
    assert ps == [ps[0]] + ps[1..];
  }

  /** Interleaving starts with the first piece; so it is empty or starts
      with a non-whitespace character when that piece is a non-empty word,
      or is the only piece and empty. */
  lemma InterleaveLead(ps: seq<string>, gs: seq<string>)
    requires |ps| == |gs| + 1
    requires NoSpace(ps[0])
    requires ps[0] != [] || gs == []
    ensures Interleave(ps, gs) == [] || !IsSpace(Interleave(ps, gs)[0])
  {
    if ps[0] != [] && gs != [] {
      assert Interleave(ps, gs)[0] == ps[0][0];
    }
  }

  /** A word, a non-empty whitespace run, then a string that is empty or
      starts with a non-whitespace character: the word is the first piece. */
  lemma SplitCons(w: string, g: string, t: string)
    requires NoSpace(w)
    requires g != [] && AllSpace(g)
    requires t == [] || !IsSpace(t[0])
    ensures Split(w + g + t) == [w] + Split(t)
  {
    var s := w + g + t;
    assert s == w + (g + t);
    WordLengthOfWord(w, g + t);
    assert s[|w|..] == g + t;
    GapOfRun(g, t);
    assert Cut(s) == |w| + |g|;
    assert s[..|w|] == w;
    assert s[|w| + |g|..] == t;
    SplitStep(s);
  }

  lemma GapOfRun(g: string, t: string)
    requires AllSpace(g)
    requires t == [] || !IsSpace(t[0])
    ensures GapLength(g + t) == |g|
  {
    var w := g + t;
    assert forall i :: 0 <= i < |g| ==> w[i] == g[i];
    if t != [] {
      assert w[|g|] == t[0];
    }
    GapLengthAt(w, |g|);
  }

  /** When `s` is trimmed and not empty, no piece of `Split(s)` is empty. */
  lemma {:induction false} SplitNonEmpty(s: string)
    ensures Trimmed(s) && s != [] ==> forall k :: 0 <= k < |Split(s)| ==> Split(s)[k] != []
    decreases |s|
  {
    if WordLength(s) == |s| {
      SplitOfWord(s);
    } else if Trimmed(s) && s != [] {
      RestTrimmed(s);
      SplitNonEmpty(s[Cut(s)..]);
      SplitStep(s);
      PiecesCons(s[..WordLength(s)], Split(s[Cut(s)..]));
    }
  }

  /** In a trimmed string the first word is not empty, and what follows
      its whitespace run is again trimmed and not empty. */
  lemma RestTrimmed(s: string)
    requires Trimmed(s) && s != []
    requires WordLength(s) < |s|
    ensures WordLength(s) >= 1
    ensures s[Cut(s)..] != [] && Trimmed(s[Cut(s)..])
  {
    var n, c := WordLength(s), Cut(s);
    GapRun(s);
    assert c < |s| by {
      assert IsSpace(s[n..c][c - 1 - n]);
    }
    var rest := s[c..];
    assert rest[0] == s[c];
    assert rest[|rest| - 1] == s[|s| - 1];
  }

  /** A piece in front of pieces: each piece of the result has a property
      when the new piece and every old one have it. */
  lemma PiecesCons(w: string, ps: seq<string>)
    ensures NoSpace(w) && (forall k :: 0 <= k < |ps| ==> NoSpace(ps[k])) ==>
      forall k :: 0 <= k < |[w] + ps| ==> NoSpace(([w] + ps)[k])
    ensures w != [] && (forall k :: 0 <= k < |ps| ==> ps[k] != []) ==>
      forall k :: 0 <= k < |[w] + ps| ==> ([w] + ps)[k] != []
    ensures (forall k :: 0 <= k < |ps| - 1 ==> ps[k] != []) ==>
      forall k :: 0 < k < |[w] + ps| - 1 ==> ([w] + ps)[k] != []
  {
  }

  /** One step of `Split`: the first word, then the split of what follows
      the cut. */
  lemma SplitStep(s: string)
    requires WordLength(s) < |s|
    ensures Split(s) == [s[..WordLength(s)]] + Split(s[Cut(s)..])
  {
  }

  lemma InterleaveCons(p: string, g: string, ps: seq<string>, gs: seq<string>)
    requires |ps| == |gs| + 1
    ensures Interleave([p] + ps, [g] + gs) == p + g + Interleave(ps, gs)
  {
    assert ([p] + ps)[1..] == ps;
    assert ([g] + gs)[1..] == gs;
  }

  /** Joins words with single spaces; the inverse of `Split` on words. */
  function Join(ws: seq<string>): string
  {
    if ws == [] then ""
    else if |ws| == 1 then ws[0]
    else ws[0] + " " + Join(ws[1..])
  }

  /** A word, as `Split` of a trimmed non-empty string yields them. */
  ghost predicate IsWord(w: string)
  {
    w != [] && NoSpace(w)
  }

  /** The leading and trailing whitespace runs are fixed by where the first
      and last non-whitespace characters are. */
  lemma GapLengthAt(s: string, n: nat)
    requires n <= |s|
    requires forall i :: 0 <= i < n ==> IsSpace(s[i])
    requires n < |s| ==> !IsSpace(s[n])
    ensures GapLength(s) == n
  {
  }

  lemma TrailingSpaceAt(s: string, n: nat)
    requires n <= |s|
    requires forall i :: |s| - n <= i < |s| ==> IsSpace(s[i])
    requires n < |s| ==> !IsSpace(s[|s| - 1 - n])
    ensures TrailingSpace(s) == n
  {
  }

  lemma GapOfPadded(p: string, t: string)
    requires AllSpace(p) && t != [] && !IsSpace(t[0])
    ensures GapLength(p + t) == |p|
  {
    var w := p + t;
    assert w[|p|] == t[0];
    assert forall i :: 0 <= i < |p| ==> w[i] == p[i];
    GapLengthAt(w, |p|);
  }

  lemma TrailOfPadded(t: string, q: string)
    requires AllSpace(q) && t != [] && !IsSpace(t[|t| - 1])
    ensures TrailingSpace(t + q) == |q|
  {
    var w := t + q;
    assert w[|t| - 1] == t[|t| - 1];
    assert forall i :: |t| <= i < |w| ==> w[i] == q[i - |t|];
    TrailingSpaceAt(w, |q|);
  }

  /** Whitespace on either side of a trimmed string is what `Trim` removes. */
  lemma TrimPadding(p: string, s: string, q: string)
    requires AllSpace(p) && AllSpace(q) && Trimmed(s)
    ensures Trim(p + s + q) == s
  {
    var w := p + s + q;
    if s == [] {
      assert w == p + q;
      assert AllSpace(w) by {
        forall i | 0 <= i < |w| ensures IsSpace(w[i]) {
          if i < |p| { assert w[i] == p[i]; } else { assert w[i] == q[i - |p|]; }
        }
      }
    } else {
      assert w == p + (s + q);
      GapOfPadded(p, s + q);
      TrailOfPadded(p + s, q);
      assert w[|p|..|w| - |q|] == s;
    }
  }

  /** `Trim(s)` is a contiguous piece of `s` with only whitespace around it. */
  lemma TrimIsInfix(s: string) returns (i: nat)
    ensures i + |Trim(s)| <= |s|
    ensures s[i..i + |Trim(s)|] == Trim(s)
    ensures AllSpace(s[..i]) && AllSpace(s[i + |Trim(s)|..])
  {
    i := GapLength(s);
    if i < |s| {
      var j := |s| - TrailingSpace(s);
      assert s[i..j] == Trim(s);
      assert forall k :: 0 <= k < |s| - j ==> s[j..][k] == s[j + k];
    }
  }

  /** A trimmed string is its own trim. */
  lemma TrimOfTrimmed(s: string)
    requires Trimmed(s)
    ensures Trim(s) == s
  {
    assert [] + s + [] == s;
    TrimPadding([], s, []);
  }

  /** Trimming twice is trimming once. */
  lemma TrimIdempotent(s: string)
    ensures Trim(Trim(s)) == Trim(s)
  {
    assert Trim(s) == [] + Trim(s) + [];
    TrimPadding([], Trim(s), []);
  }

  lemma {:induction false} WordLengthOfWord(w: string, rest: string)
    requires NoSpace(w)
    requires rest == [] || IsSpace(rest[0])
    ensures WordLength(w + rest) == |w|
  {
    if w == [] {
      assert w + rest == rest;
    } else {
      assert (w + rest)[1..] == w[1..] + rest;
      WordLengthOfWord(w[1..], rest);
    }
  }

  /** A word, one space, then a string starting with a non-space: the word
      is the first piece. */
  lemma SplitAfterWord(w: string, rest: string)
    requires IsWord(w)
    requires rest != [] && !IsSpace(rest[0])
    ensures Split(w + " " + rest) == [w] + Split(rest)
  {
    assert AllSpace(" ");
    SplitCons(w, " ", rest);
  }

  /** Splitting words joined by single spaces gives the words back. */
  lemma {:induction false} SplitJoin(ws: seq<string>)
    requires |ws| >= 1
    requires forall k :: 0 <= k < |ws| ==> IsWord(ws[k])
    ensures Split(Join(ws)) == ws
  {
    if |ws| == 1 {
      SplitOfWord(ws[0]);
    } else {
      JoinStartsWithWord(ws[1..]);
      SplitAfterWord(ws[0], Join(ws[1..]));
      SplitJoin(ws[1..]);
      assert Join(ws) == ws[0] + " " + Join(ws[1..]);
      assert ws == [ws[0]] + ws[1..];
    }
  }

  /** A string without whitespace is a single piece. */
  lemma SplitOfWord(w: string)
    requires NoSpace(w)
    ensures Split(w) == [w]
  {
    WordLengthOfWord(w, []);
    assert w + [] == w;
  }

  lemma {:induction false} JoinStartsWithWord(ws: seq<string>)
    requires |ws| >= 1
    requires forall k :: 0 <= k < |ws| ==> IsWord(ws[k])
    ensures Join(ws) != [] && !IsSpace(Join(ws)[0]) && !IsSpace(Join(ws)[|Join(ws)| - 1])
  {
    if |ws| > 1 {
      JoinStartsWithWord(ws[1..]);
      assert Join(ws) == ws[0] + (" " + Join(ws[1..]));
    }
  }

  /** Words joined by single spaces are tokenised back into the same words. */
  lemma TokensJoin(ws: seq<string>)
    requires |ws| >= 1
    requires forall k :: 0 <= k < |ws| ==> IsWord(ws[k])
    ensures Tokens(Join(ws)) == ws
  {
    JoinStartsWithWord(ws);
    TrimOfTrimmed(Join(ws));
    SplitJoin(ws);
  }

  /** A non-blank string tokenises into words; a blank one into `[""]`. */
  lemma TokensShape(s: string)
    ensures !AllSpace(s) ==> forall k :: 0 <= k < |Tokens(s)| ==> IsWord(Tokens(s)[k])
    ensures AllSpace(s) ==> Tokens(s) == [""]
  {
    SplitNoSpace(Trim(s));
    SplitNonEmpty(Trim(s));
  }
}
