/**
 * The argument container `vpn_args_t` of sim_networks/openvpn/argv.c: a growable array
 * of argument pointers into one formatted string. `argv_vsnprintf` turns every run of
 * spaces in a format into one separator (GS, 0x1D), formats it, and splits the result at
 * the separators in place, so each word of the format becomes one argument.
 *
 * The formatting step (`vsnprintf`) is foreign and is taken as an input: the text it
 * produced, or None when it reported an error.
 */
module VpnArgv {
  import opened Wrappers
  import opened ArgvText

  /** OPENVPN_CAPACITY_INIT and OPENVPN_CAPACITY_INCR. */
  const CAPACITY_INIT: nat := 16
  const CAPACITY_INCR: nat := 8

  // ---------------------------------------------------------------------------
  // The container

  class VpnArgs {
    var capacity: int
    var argc: int
    /** The argument array (None: NULL), holding the `argc` stored pointers. */
    var argv: Option<seq<Option<string>>>
    /** The formatted string the arguments point into. */
    var argvString: Option<string>

    ghost predicate Valid()
      reads this
    {
      0 <= argc <= capacity && argc == |Args()|
    }

    /** The stored argument pointers. */
    function Args(): seq<Option<string>>
      reads this
    {
      if argv.Some? then argv.value else []
    }

    /** Storage for a container that `argv_init` has not set up. */
    constructor ()
      ensures capacity == 0 && argc == 0 && argv == None && argvString == None
    {
      capacity, argc := 0, 0;
      argv, argvString := None, None;
    }

    /** `argv_init`: an empty array of capacity 16 and no string. */
    method Init()
      modifies this
      ensures Valid()
      ensures capacity == CAPACITY_INIT && argc == 0 && argv == Some([]) && argvString == None
    {
      capacity := CAPACITY_INIT;
      argc := 0;
      argv := Some([]);
      argvString := None;
    }

    /** `argv_free`: capacity and count 0, both buffers NULL. */
    method Free()
      modifies this
      ensures Valid()
      ensures capacity == 0 && argc == 0 && argv == None && argvString == None
    {
      capacity, argc := 0, 0;
      argv := None;
      argvString := None;
    }

    /**
     * `argv_extend`: store `arg` at index `argc` and count it; a full array first grows by
     * OPENVPN_CAPACITY_INCR slots.
     */
    method Extend(arg: Option<string>) returns (r: int)
      requires Valid()
      modifies this
      ensures Valid() && r == 1
      ensures capacity == old(capacity) + (if old(capacity) == old(argc) then CAPACITY_INCR else 0)
      ensures argc == old(argc) + 1 && Args() == old(Args()) + [arg]
      ensures argvString == old(argvString)
    {
      if capacity == argc {
        capacity := capacity + CAPACITY_INCR;
      }
      argv := Some(Args() + [arg]);
      argc := argc + 1;
      return 1;
    }

    /**
     * `argv_vsnprintf`: separate the format's words, take the formatted text, and split it
     * at each separator in place, storing a pointer to every piece and then a NULL. It
     * succeeds (1) only when the argument count after the pieces equals the number of
     * words in the format; a formatting error or a count mismatch empties the container
     * and returns 0.
     */
    method VsnPrintf(fmt: CString, formatted: Option<CString>) returns (r: int)
      requires Valid()
      modifies this
      ensures Valid()
      ensures r == 1 || r == 0
      ensures r == 1 <==> formatted.Some? && old(argc) + |Split(formatted.value, SEP)| == |Words(fmt)|
      ensures r == 1 ==> Args() == old(Args()) + Somes(Split(formatted.value, SEP)) + [None]
      ensures r == 1 ==> argc == |Words(fmt)| + 1 && argvString == Some(NulSeps(formatted.value))
      ensures r == 0 ==> capacity == 0 && argc == 0 && argv == None && argvString == None
    {
      var fmtsep, nSeps := SeparateFmt(fmt, SEP);
      if formatted.None? {
        Free();
        return 0;
      }
      var s := formatted.value;
      argvString := Some(s);
      var buf := SplitInto(s);
      argvString := Some(buf);
      if argc != nSeps {
        Free();
        return 0;
      }
      var _ := Extend(None);
      return 1;
    }

    /**
     * One round of the splitting loop: overwrite the separator at `k` with a NUL and
     * store a pointer to the piece that ends there.
     */
    method StorePiece(ghost s: string, buf: string, p: nat, k: nat, ghost done: seq<string>) returns (b: string)
      requires Valid() && Scanned(s, buf, p, done) && IndexFrom(s, p, SEP) == Some(k)
      modifies this
      ensures Valid() && Scanned(s, b, k + 1, done + [s[p..k]])
      ensures IndexFrom(b, k + 1, SEP) == IndexFrom(s, k + 1, SEP)
      ensures Args() == old(Args()) + [Some(s[p..k])]
    {
      SplitLoopStep(s, buf, p, k, done);
      b := buf[k := '\0'];
      var _ := Extend(Some(b[p..k]));
    }

    /**
     * The splitting loop of `argv_vsnprintf`: store a pointer to each piece of `s` between
     * separators, overwriting each separator with a NUL in the returned buffer.
     */
    method SplitInto(s: string) returns (buf: string)
      requires Valid()
      modifies this
      ensures Valid()
      ensures Args() == old(Args()) + Somes(Split(s, SEP))
      ensures buf == NulSeps(s)
    {
      buf := s;
      var p := 0;
      var q := IndexFrom(buf, p, SEP);
      ghost var done: seq<string> := [];
      ghost var args0 := Args();
      ScannedStart(s);
      while q.Some?
        invariant Valid()
        invariant Scanned(s, buf, p, done)
        invariant q == IndexFrom(s, p, SEP)
        invariant Args() == args0 + Somes(done)
        decreases |s| - p
      {
        var k := q.value;
        buf := StorePiece(s, buf, p, k, done);
        SomesSnoc(done, s[p..k]);
        done := done + [s[p..k]];
        p := k + 1;
        q := IndexFrom(buf, p, SEP);
      }
      StoreLast(s, buf, p, done);
      SomesSnoc(done, s[p..]);
    }

    /** The end of the splitting loop: store a pointer to the piece after the last separator. */
    method StoreLast(ghost s: string, buf: string, p: nat, ghost done: seq<string>)
      requires Valid() && Scanned(s, buf, p, done) && IndexFrom(s, p, SEP).None?
      modifies this
      ensures Valid() && buf == NulSeps(s) && Split(s, SEP) == done + [s[p..]]
      ensures Args() == old(Args()) + [Some(s[p..])]
    {
      SplitLoopEnd(s, buf, p, done);
      var _ := Extend(Some(buf[p..]));
    }
  }

  /**
   * `argv_separate_fmt`: copy `fmt` into a buffer of `strlen(fmt) + 1` characters, dropping
   * every space and writing one `sep` before each word but the first. Returns the text and
   * the number of words (`n_seps`).
   */
  method SeparateFmt(fmt: CString, sep: char) returns (r: string, nSeps: int)
    ensures r == Join(Words(fmt), sep)
    ensures nSeps == |Words(fmt)|
    ensures |r| <= |fmt|
  {
    var retval := new char[|fmt| + 1](_ => '\0');
    var parsing := false;
    var i, j := 0, 0;
    nSeps := 0;
    while i < |fmt|
      invariant 0 <= i <= |fmt| && 0 <= j <= i
      invariant parsing <==> i > 0 && fmt[i - 1] != ' '
      invariant !parsing && j > 0 ==> j < i
      invariant retval[..j] == Join(Words(fmt[..i]), sep)
      invariant nSeps == |Words(fmt[..i])|
    {
      SeparateStep(fmt, i, sep);
      if fmt[i] == ' ' {
        parsing := false;
        i := i + 1;
        continue;
      }
      ghost var before := retval[..j];
      ghost var lead: string := [];
      if !parsing {
        nSeps := nSeps + 1;
        if j > 0 {
          retval[j] := sep;
          j := j + 1;
          lead := [sep];
        }
      }
      assert retval[..j] == before + lead;
      retval[j] := fmt[i];
      j := j + 1;
      assert retval[..j] == before + lead + [fmt[i]];
      parsing := true;
      i := i + 1;
    }
    assert fmt[..i] == fmt;
    r := retval[..j];
  }

  /**
   * With formatting that changes nothing (the formatted text is the separated format), a
   * fresh container ends up holding one argument per word of the format and a NULL, and
   * this succeeds exactly when the format has a word; a blank format is rejected, because
   * its one empty piece does not match its zero words.
   */
  method ArgvFromFormat(fmt: CString) returns (r: int, args: seq<Option<string>>)
    requires SEP !in fmt
    ensures r == 1 <==> Words(fmt) != []
    ensures r == 1 ==> args == Somes(Words(fmt)) + [None]
    ensures r == 0 ==> args == []
  {
    var a := new VpnArgs();
    a.Init();
    var text, _ := SeparateFmt(fmt, SEP);
    WordsAvoid(fmt, SEP);
    WordsAvoid(fmt, '\0');
    JoinAvoid(Words(fmt), SEP);
    r := a.VsnPrintf(fmt, Some(text));
    if Words(fmt) != [] {
      SplitJoin(Words(fmt), SEP);
    }
    args := a.Args();
  }

}
