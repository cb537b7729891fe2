/**
 * The text that sim_networks/openvpn/argv.c works on: the words of a format, their join
 * with a separator, and the pieces of a formatted string between separators, with the
 * lemmas that relate them and the steps of the loops that compute them.
 */
module ArgvText {
  import opened Wrappers

  /** The argument separator, ASCII GS. */
  const SEP: char := 0x1D as char

  /**
   * The words of `s`: its maximal runs of non-space characters, in order. Defined by the
   * last character: a space ends the current word, a non-space after a space (or at the
   * start) begins a new word, and any other non-space extends the last word.
   */
  function Words(s: string): (ws: seq<string>)
    ensures s != [] && s[|s| - 1] != ' ' ==> ws != []
    decreases |s|
  {
    if s == [] then []
    else
      var p, c := s[..|s| - 1], s[|s| - 1];
      var ws := Words(p);
      if c == ' ' then ws
      else if p == [] || p[|p| - 1] == ' ' then ws + [[c]]
      else ws[..|ws| - 1] + [ws[|ws| - 1] + [c]]
  }

  /** Every word is non-empty and holds no space. */
  lemma {:induction false} WordsShape(s: string)
    ensures forall k :: 0 <= k < |Words(s)| ==> Words(s)[k] != [] && ' ' !in Words(s)[k]
  {
    if s != [] {
      WordsShape(s[..|s| - 1]);
    }
  }

  /** A character that `s` does not contain appears in none of its words. */
  lemma {:induction false} WordsAvoid(s: string, c: char)
    requires c !in s
    ensures forall k :: 0 <= k < |Words(s)| ==> c !in Words(s)[k]
  {
    if s != [] {
      var p := s[..|s| - 1];
      assert forall ch :: ch in p ==> ch in s;
      WordsAvoid(p, c);
    }
  }

  /** `ws` with `sep` between consecutive words, none before the first or after the last. */
  function Join(ws: seq<string>, sep: char): string
  {
    if ws == [] then []
    else if |ws| == 1 then ws[0]
    else ws[0] + [sep] + Join(ws[1..], sep)
  }

  /** Adding a word at the end adds a separator and the word. */
  lemma {:induction false} JoinSnoc(ws: seq<string>, w: string, sep: char)
    ensures Join(ws + [w], sep) == if ws == [] then w else Join(ws, sep) + [sep] + w
  {
    if |ws| > 1 {
      assert (ws + [w])[1..] == ws[1..] + [w];
      JoinSnoc(ws[1..], w, sep);
    } else if |ws| == 1 {
      assert (ws + [w])[1..] == [w];
    }
  }

  /**
   * How one more character changes the joined words: a space changes nothing, a
   * non-space after a space (or at the start) adds a separator (unless there are no
   * words yet) and itself, and a non-space after a non-space adds itself.
   */
  lemma JoinWordsStep(s: string, c: char, sep: char)
    ensures c == ' ' ==> Words(s + [c]) == Words(s)
    ensures c != ' ' && (s == [] || s[|s| - 1] == ' ') ==>
      |Words(s + [c])| == |Words(s)| + 1 &&
      Join(Words(s + [c]), sep) == Join(Words(s), sep) + (if Words(s) == [] then [] else [sep]) + [c]
    ensures c != ' ' && s != [] && s[|s| - 1] != ' ' ==>
      |Words(s + [c])| == |Words(s)| && Join(Words(s + [c]), sep) == Join(Words(s), sep) + [c]
  {
    var t := s + [c];
    assert t[..|t| - 1] == s;
    var ws := Words(s);
    if c != ' ' {
      if s == [] || s[|s| - 1] == ' ' {
        JoinSnoc(ws, [c], sep);
      } else {
        var n := |ws|;
        JoinSnoc(ws[..n - 1], ws[n - 1], sep);
        JoinSnoc(ws[..n - 1], ws[n - 1] + [c], sep);
        assert ws[..n - 1] + [ws[n - 1]] == ws;
      }
    }
  }

  /** A join of non-empty words is empty only when there are no words. */
  lemma JoinEmpty(ws: seq<string>, sep: char)
    requires forall k :: 0 <= k < |ws| ==> ws[k] != []
    ensures Join(ws, sep) == [] <==> ws == []
  {
    if |ws| > 1 {
      assert |Join(ws, sep)| >= |ws[0]|;
    }
  }

  /** Reading a string for separators: the pieces finished so far and the one being read. */
  datatype Scan = Scan(done: seq<string>, current: string)

  /**
   * The scan of `s[..n]`: a separator finishes the current piece and starts an empty one,
   * any other character extends the current piece.
   */
  function ScanUpTo(s: string, n: nat, sep: char): Scan
    requires n <= |s|
  {
    if n == 0 then Scan([], [])
    else
      var st := ScanUpTo(s, n - 1, sep);
      if s[n - 1] == sep then Scan(st.done + [st.current], [])
      else Scan(st.done, st.current + [s[n - 1]])
  }

  /**
   * The pieces of `s` between separators: the text before the first, between each two,
   * and after the last.
   */
  function Split(s: string, sep: char): (pieces: seq<string>)
    ensures pieces != []
  {
    var st := ScanUpTo(s, |s|, sep);
    st.done + [st.current]
  }

  /** The scan of a prefix depends only on the prefix. */
  lemma {:induction false} ScanPrefix(s: string, t: string, n: nat, sep: char)
    requires n <= |s| && n <= |t| && s[..n] == t[..n]
    ensures ScanUpTo(s, n, sep) == ScanUpTo(t, n, sep)
  {
    if n > 0 {
      assert s[n - 1] == s[..n][n - 1] == t[n - 1];
      assert s[..n - 1] == s[..n][..n - 1];
      assert t[..n - 1] == t[..n][..n - 1];
      ScanPrefix(s, t, n - 1, sep);
    }
  }

  /** A run without separators from `n` to `m` extends the current piece by that run. */
  lemma {:induction false} ScanRun(s: string, n: nat, m: nat, sep: char)
    requires n <= m <= |s|
    requires forall i :: n <= i < m ==> s[i] != sep
    ensures var st := ScanUpTo(s, n, sep);
      ScanUpTo(s, m, sep) == Scan(st.done, st.current + s[n..m])
  {
    var st := ScanUpTo(s, n, sep);
    if m == n {
      assert st.current + s[n..m] == st.current;
    } else {
      ScanRun(s, n, m - 1, sep);
      assert st.current + s[n..m - 1] + [s[m - 1]] == st.current + s[n..m];
    }
  }

  /** Splitting a join recovers the words, provided there is at least one and none holds the separator. */
  lemma {:induction false} SplitJoin(ws: seq<string>, sep: char)
    requires ws != []
    requires forall k :: 0 <= k < |ws| ==> sep !in ws[k]
    ensures Split(Join(ws, sep), sep) == ws
    decreases |ws|
  {
    var n := |ws|;
    var init, w := ws[..n - 1], ws[n - 1];
    assert init + [w] == ws;
    JoinSnoc(init, w, sep);
    var s := Join(ws, sep);
    assert sep !in w;
    if init == [] {
      assert s == w && s[0..|s|] == w;
      ScanRun(s, 0, |s|, sep);
      assert ScanUpTo(s, |s|, sep) == Scan([], w);
    } else {
      var j := Join(init, sep);
      SplitJoin(init, sep);
      SplitAfterSep(j, w, sep);
    }
  }

  /** A separator and a piece without separators add that piece to the split. */
  lemma SplitAfterSep(j: string, w: string, sep: char)
    requires sep !in w
    ensures Split(j + [sep] + w, sep) == Split(j, sep) + [w]
  {
    var s := j + [sep] + w;
    assert s[..|j|] == j[..|j|];
    ScanPrefix(s, j, |j|, sep);
    var st := ScanUpTo(j, |j|, sep);
    assert s[|j|] == sep;
    assert ScanUpTo(s, |j| + 1, sep) == Scan(st.done + [st.current], []);
    ScanRun(s, |j| + 1, |s|, sep);
    assert [] + s[|j| + 1..|s|] == w;
  }

  /** The scan up to the separator at `k` finishes the piece that started at `p`. */
  lemma PieceStep(s: string, p: nat, k: nat, done: seq<string>)
    requires p <= k < |s| && s[k] == SEP
    requires forall m :: p <= m < k ==> s[m] != SEP
    requires ScanUpTo(s, p, SEP) == Scan(done, [])
    ensures ScanUpTo(s, k + 1, SEP) == Scan(done + [s[p..k]], [])
  {
    ScanRun(s, p, k, SEP);
    assert [] + s[p..k] == s[p..k];
  }

  /** Without a separator after `p`, the split ends with the rest of `s`. */
  lemma LastPiece(s: string, p: nat, done: seq<string>)
    requires p <= |s|
    requires forall m :: p <= m < |s| ==> s[m] != SEP
    requires ScanUpTo(s, p, SEP) == Scan(done, [])
    ensures Split(s, SEP) == done + [s[p..]]
  {
    ScanRun(s, p, |s|, SEP);
    assert [] + s[p..|s|] == s[p..];
  }

  /**
   * The state of the splitting loop after reading `s` up to `p`: the buffer is `s` with
   * the separators before `p` cleared, and `done` holds the pieces that ended before `p`.
   */
  ghost predicate Scanned(s: string, buf: string, p: nat, done: seq<string>)
  {
    && |buf| == |s| && p <= |s|
    && (forall m :: 0 <= m < |s| ==> buf[m] == if m < p && s[m] == SEP then '\0' else s[m])
    && ScanUpTo(s, p, SEP) == Scan(done, [])
  }

  /** One round of the splitting loop: clear the separator at `k` and take the piece before it. */
  lemma SplitLoopStep(s: string, buf: string, p: nat, k: nat, done: seq<string>)
    requires Scanned(s, buf, p, done)
    requires IndexFrom(s, p, SEP) == Some(k)
    ensures var b := buf[k := '\0'];
      && b[p..k] == s[p..k]
      && Scanned(s, b, k + 1, done + [s[p..k]])
      && IndexFrom(b, k + 1, SEP) == IndexFrom(s, k + 1, SEP)
  {
    var b := buf[k := '\0'];
    assert b[p..k] == s[p..k];
    IndexFromSameSuffix(b, s, k + 1, SEP);
    PieceStep(s, p, k, done);
  }

  /**
   * The end of the splitting loop: with no separator left after `p`, the buffer is `s`
   * with every separator cleared, and the rest of it is the last piece.
   */
  lemma SplitLoopEnd(s: string, buf: string, p: nat, done: seq<string>)
    requires Scanned(s, buf, p, done)
    requires IndexFrom(s, p, SEP).None?
    ensures buf == NulSeps(s) && buf[p..] == s[p..]
    ensures Split(s, SEP) == done + [s[p..]]
    ensures Somes(done + [s[p..]]) == Somes(done) + [Some(s[p..])]
  {
    assert buf[p..] == s[p..];
    LastPiece(s, p, done);
    SomesSnoc(done, s[p..]);
  }

  /** The loop starts with nothing scanned. */
  lemma ScannedStart(s: string)
    ensures Scanned(s, s, 0, [])
  {
  }

  /** Two strings that agree from `from` on give the same `strchr` result from there. */
  lemma {:induction false} IndexFromSameSuffix(a: string, b: string, from: nat, c: char)
    requires |a| == |b| && from <= |a|
    requires forall m :: from <= m < |a| ==> a[m] == b[m]
    ensures IndexFrom(a, from, c) == IndexFrom(b, from, c)
    decreases |a| - from
  {
    if from < |a| && a[from] != c {
      IndexFromSameSuffix(a, b, from + 1, c);
    }
  }

  /** `s` with every separator overwritten by a NUL, as the in-place split leaves it. */
  function NulSeps(s: string): (r: string)
    ensures |r| == |s|
  {
    seq(|s|, m requires 0 <= m < |s| => if s[m] == SEP then '\0' else s[m])
  }

  /** The argument pointers for a list of strings. */
  function Somes(ws: seq<string>): (r: seq<Option<string>>)
    ensures |r| == |ws|
  {
    seq(|ws|, k requires 0 <= k < |ws| => Some(ws[k]))
  }

  lemma SomesSnoc(ws: seq<string>, w: string)
    ensures Somes(ws + [w]) == Somes(ws) + [Some(w)]
  {
  }

  /** One step of `argv_separate_fmt`, stated on the prefix of `fmt` read so far. */
  lemma SeparateStep(fmt: string, i: nat, sep: char)
    requires i < |fmt|
    ensures var s, s' := fmt[..i], fmt[..i + 1];
      var parsing := i > 0 && fmt[i - 1] != ' ';
      var prev := Join(Words(s), sep);
      && (prev == [] <==> Words(s) == [])
      && (fmt[i] == ' ' ==> Words(s') == Words(s))
      && (fmt[i] != ' ' ==>
            Join(Words(s'), sep) == prev + (if !parsing && prev != [] then [sep] else []) + [fmt[i]] &&
            |Words(s')| == |Words(s)| + (if parsing then 0 else 1))
  {
    assert fmt[..i + 1] == fmt[..i] + [fmt[i]];
    JoinWordsStep(fmt[..i], fmt[i], sep);
    WordsShape(fmt[..i]);
    JoinEmpty(Words(fmt[..i]), sep);
  }

  /** A join of words without NULs, with a separator that is not NUL, has no NUL. */
  lemma {:induction false} JoinAvoid(ws: seq<string>, sep: char)
    requires sep != '\0'
    requires forall k :: 0 <= k < |ws| ==> '\0' !in ws[k]
    ensures '\0' !in Join(ws, sep)
  {
    if |ws| > 1 {
      JoinAvoid(ws[1..], sep);
    }
  }
}
