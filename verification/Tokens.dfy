/** `strtok_r` with a single separator: the nonempty pieces of a string, in order. */
module Tokens {

  /** Characters before the first separator. */
  function Span(s: string, sep: char): (n: nat)
    ensures n <= |s|
    ensures n < |s| ==> s[n] == sep
    ensures sep !in s[..n]
  {
    if s == "" || s[0] == sep then 0 else
      var n := 1 + Span(s[1..], sep);
      assert s[..n] == [s[0]] + s[1..][..n - 1];
      n
  }

  function Split(s: string, sep: char): seq<string>
    decreases |s|
  {
    if s == "" then []
    else if s[0] == sep then Split(s[1..], sep)
    else [s[..Span(s, sep)]] + Split(s[Span(s, sep)..], sep)
  }

  /** One call of `strtok_r`: the next piece, if any, and what is left. */
  function Next(s: string, sep: char): (r: (string, string))
    ensures if r.0 == "" then r.1 == "" else |r.1| < |s|
    decreases |s|
  {
    if s == "" then ("", "")
    else if s[0] == sep then Next(s[1..], sep)
    else (s[..Span(s, sep)], s[Span(s, sep)..])
  }

  /** Successive calls yield the pieces one by one. */
  lemma {:induction false} NextIsHead(s: string, sep: char)
    ensures Split(s, sep) == if Next(s, sep).0 == "" then [] else [Next(s, sep).0] + Split(Next(s, sep).1, sep)
    decreases |s|
  {
    if s != "" && s[0] == sep {
      NextIsHead(s[1..], sep);
    }
  }

  /** After `done`, the piece `cur` was taken and `rest` is left: one more call moves on by one piece. */
  lemma {:induction false} NextMovesOn(all: seq<string>, done: seq<string>, cur: string, rest: string, sep: char)
    requires all == done + ([cur] + Split(rest, sep))
    ensures var (next, left) := Next(rest, sep);
            all == (done + [cur]) + if next == "" then [] else [next] + Split(left, sep)
  {
    NextIsHead(rest, sep);
  }

  /** There are no pieces exactly if there are separators only. */
  lemma {:induction false} NoPiecesExactlyWhen(s: string, sep: char)
    ensures Split(s, sep) == [] <==> forall i :: 0 <= i < |s| ==> s[i] == sep
    decreases |s|
  {
    if s != "" && s[0] == sep {
      NoPiecesExactlyWhen(s[1..], sep);
      assert forall i :: 1 <= i < |s| ==> s[i] == s[1..][i - 1];
    }
  }

  predicate Piece(t: string, sep: char) { t != "" && sep !in t }

  predicate Pieces(ts: seq<string>, sep: char) {
    forall i :: 0 <= i < |ts| ==> Piece(ts[i], sep)
  }

  lemma {:induction false} SplitPieces(s: string, sep: char)
    ensures Pieces(Split(s, sep), sep)
    decreases |s|
  {
    if s != "" {
      if s[0] == sep {
        SplitPieces(s[1..], sep);
      } else {
        SplitPieces(s[Span(s, sep)..], sep);
      }
    }
  }

  lemma {:induction false} SpanOfPiece(t: string, rest: string, sep: char)
    requires sep !in t && (rest == "" || rest[0] == sep)
    ensures Span(t + rest, sep) == |t|
  {
    if t == "" {
      assert t + rest == rest;
    } else {
      assert (t + rest)[1..] == t[1..] + rest;
      SpanOfPiece(t[1..], rest, sep);
    }
  }

  /** A piece in front of a separator or the end is the first one. */
  lemma {:induction false} SplitHead(t: string, rest: string, sep: char)
    requires Piece(t, sep) && (rest == "" || rest[0] == sep)
    ensures Split(t + rest, sep) == [t] + Split(rest, sep)
  {
    SpanOfPiece(t, rest, sep);
    assert (t + rest)[..|t|] == t && (t + rest)[|t|..] == rest;
  }

  /** Each piece with the separator before it. */
  function Lead(ts: seq<string>, sep: char): string {
    if ts == [] then "" else [sep] + ts[0] + Lead(ts[1..], sep)
  }

  /** Pieces with separators between them. */
  function Join(ts: seq<string>, sep: char): string {
    if ts == [] then "" else ts[0] + Lead(ts[1..], sep)
  }

  lemma {:induction false} JoinCons(t: string, ts: seq<string>, sep: char)
    ensures Join([t] + ts, sep) == t + if ts == [] then "" else [sep] + Join(ts, sep)
  {
    assert ([t] + ts)[1..] == ts;
  }

  lemma {:induction false} SplitLead(ts: seq<string>, sep: char)
    requires Pieces(ts, sep)
    ensures Split(Lead(ts, sep), sep) == ts
  {
    if ts != [] {
      var rest := Lead(ts[1..], sep);
      assert Lead(ts, sep)[1..] == ts[0] + rest;
      SplitLead(ts[1..], sep);
      SplitHead(ts[0], rest, sep);
    }
  }

  /** Splitting undoes joining. */
  lemma {:induction false} SplitJoin(ts: seq<string>, sep: char)
    requires Pieces(ts, sep)
    ensures Split(Join(ts, sep), sep) == ts
  {
    if ts != [] {
      SplitLead(ts[1..], sep);
      SplitHead(ts[0], Lead(ts[1..], sep), sep);
    }
  }

  lemma {:induction false} LeadSnoc(ts: seq<string>, t: string, sep: char)
    ensures Lead(ts + [t], sep) == Lead(ts, sep) + [sep] + t
  {
    if ts == [] {
      assert [t][1..] == [] && Lead([t], sep) == [sep] + t + Lead([], sep);
    } else {
      assert (ts + [t])[1..] == ts[1..] + [t];
      LeadSnoc(ts[1..], t, sep);
    }
  }

  /** Splitting a string in front of a separator splits its pieces. */
  lemma {:induction false} SplitAppend(s: string, t: string, sep: char)
    requires t == "" || t[0] == sep
    ensures Split(s + t, sep) == Split(s, sep) + Split(t, sep)
    decreases |s|
  {
    if s == "" {
      assert s + t == t;
    } else if s[0] == sep {
      assert (s + t)[1..] == s[1..] + t;
      SplitAppend(s[1..], t, sep);
    } else {
      var n := Span(s, sep);
      var head, rest := s[..n], s[n..];
      assert s == head + rest && s + t == head + (rest + t);
      SplitHead(head, rest, sep);
      SplitHead(head, rest + t, sep);
      SplitAppend(rest, t, sep);
    }
  }

  /** Two pieces with one separator or several between them. */
  lemma {:induction false} SplitTwo(s: string, t: string, sep: char)
    requires Piece(s, sep) && Piece(t, sep)
    ensures Split(s + [sep] + t, sep) == [s, t] && Split(s + [sep, sep] + t, sep) == [s, t]
  {
    assert t == t + "";
    SplitHead(t, "", sep);
    var one, two := [sep] + t, [sep, sep] + t;
    assert one[1..] == t && two[1..] == one;
    assert s + [sep] + t == s + one && s + [sep, sep] + t == s + two;
    SplitHead(s, one, sep);
    SplitHead(s, two, sep);
  }

  lemma {:induction false} SplitOne(s: string, sep: char)
    requires Piece(s, sep)
    ensures Split(s, sep) == [s]
  {
    assert s == s + "";
    SplitHead(s, "", sep);
  }

  predicate EndsWith(s: string, c: char) { s != "" && s[|s| - 1] == c }

  /** The last piece with a suffix; a piece of its own after a separator or at the start. */
  function Suffixed(ts: seq<string>, apart: bool, suffix: string): seq<string>
    requires apart || ts != []
  {
    if apart then ts + [suffix] else ts[..|ts| - 1] + [ts[|ts| - 1] + suffix]
  }

  lemma SuffixedAppend(s: seq<string>, ts: seq<string>, apart: bool, suffix: string)
    requires apart || ts != []
    ensures s + Suffixed(ts, apart, suffix) == Suffixed(s + ts, apart, suffix)
  {
    if !apart {
      assert (s + ts)[..|s + ts| - 1] == s + ts[..|ts| - 1];
    }
  }

  lemma {:induction false} SplitSuffix(s: string, suffix: string, sep: char)
    requires Piece(suffix, sep)
    ensures s != "" && !EndsWith(s, sep) ==> Split(s, sep) != []
    ensures Split(s + suffix, sep) == Suffixed(Split(s, sep), s == "" || EndsWith(s, sep), suffix)
    decreases |s|
  {
    if s == "" {
      SplitHead(suffix, "", sep);
      assert s + suffix == suffix == suffix + "";
    } else if s[0] == sep {
      assert (s + suffix)[1..] == s[1..] + suffix;
      SplitSuffix(s[1..], suffix, sep);
    } else {
      var head, rest := s[..Span(s, sep)], s[Span(s, sep)..];
      assert s == head + rest;
      if rest == "" {
        assert s == head;
        SplitOne(s, sep);
        SplitOne(s + suffix, sep);
      } else {
        SplitSuffix(rest, suffix, sep);
        SuffixAfterHead(head, rest, suffix, sep);
      }
    }
  }

  lemma {:induction false} SuffixAfterHead(head: string, rest: string, suffix: string, sep: char)
    requires Piece(head, sep) && rest != "" && rest[0] == sep && (EndsWith(rest, sep) || Split(rest, sep) != [])
    requires Split(rest + suffix, sep) == Suffixed(Split(rest, sep), EndsWith(rest, sep), suffix)
    ensures Split(head + rest, sep) == [head] + Split(rest, sep)
    ensures Split((head + rest) + suffix, sep) == Suffixed(Split(head + rest, sep), EndsWith(rest, sep), suffix)
  {
    assert (head + rest) + suffix == head + (rest + suffix);
    SplitHead(head, rest, sep);
    SplitHead(head, rest + suffix, sep);
    SuffixedAppend([head], Split(rest, sep), EndsWith(rest, sep), suffix);
  }

  /** Pieces and the place of the suffix can be told from the result. */
  lemma SuffixedInjective(s: seq<string>, a: bool, t: seq<string>, b: bool, suffix: string)
    requires (a || s != []) && (b || t != [])
    requires (forall i :: 0 <= i < |s| ==> s[i] != "") && (forall i :: 0 <= i < |t| ==> t[i] != "")
    requires Suffixed(s, a, suffix) == Suffixed(t, b, suffix)
    ensures s == t && a == b
  {
    SuffixedParts(s, a, suffix);
    SuffixedParts(t, b, suffix);
  }

  /** What the last piece and the pieces before it tell. */
  lemma SuffixedParts(s: seq<string>, a: bool, suffix: string)
    requires (a || s != []) && forall i :: 0 <= i < |s| ==> s[i] != ""
    ensures var x := Suffixed(s, a, suffix);
            var last := x[|x| - 1];
            && (a <==> |last| == |suffix|) && |suffix| <= |last|
            && s == x[..|x| - 1] + if a then [] else [last[..|last| - |suffix|]]
  {
    if !a {
      var u := s[|s| - 1];
      assert (u + suffix)[..|u|] == u;
      assert s == s[..|s| - 1] + [u];
    }
  }
}
