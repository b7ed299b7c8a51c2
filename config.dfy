/**
 * The database configuration of src/core/config.c: defaults, and the
 * command-line scanner db_config_from_args, which walks argv once, applies
 * each option to the configuration in place, and stops with false at the
 * first help request, missing value, out-of-range value or unknown option.
 *
 * strtol(s, NULL, 10) is modelled as the C library specifies it for base
 * 10: leading C-locale whitespace, an optional sign, the longest run of
 * decimal digits (0 when there is none), clamped to the range of a 64-bit
 * long. Whatever follows the digits is ignored.
 */
module Config {
  import opened Bits
  import StringViews

  datatype LogLevel = Debug | Info | Warning | Error | Fatal

  const DEFAULT_DB_FILE: string := "database.db"
  const DEFAULT_PAGE_SIZE: nat := 4096
  const DEFAULT_CACHE_SIZE_MB: nat := 64
  const DEFAULT_PORT: nat := 5432

  const LONG_MAX: int := 0x7FFF_FFFF_FFFF_FFFF
  const LONG_MIN: int := -0x8000_0000_0000_0000

  // ---------------------------------------------------------------------------
  // strtol, base 10
  // ---------------------------------------------------------------------------

  predicate IsDigit(c: char)
  {
    '0' <= c <= '9'
  }

  function DigitValue(c: char): (r: nat)
    requires IsDigit(c)
    ensures r < 10
  {
    (c as int) - ('0' as int)
  }

  /** The digit loop of strtol: acc, extended by each leading decimal digit of s. */
  function Digits(s: string, acc: nat): nat
    decreases |s|
  {
    if s == [] || !IsDigit(s[0]) then acc else Digits(s[1..], acc * 10 + DigitValue(s[0]))
  }

  /** strtol(s, NULL, 10) on a 64-bit long. */
  function StrToL(s: string): (r: int)
    ensures LONG_MIN <= r <= LONG_MAX
  {
    var t := s[StringViews.LeadingSpaces(s)..];
    var negative := |t| > 0 && t[0] == '-';
    var u := if |t| > 0 && (t[0] == '-' || t[0] == '+') then t[1..] else t;
    var v: int := Digits(u, 0);
    if negative then (if -v < LONG_MIN then LONG_MIN else -v)
    else (if v > LONG_MAX then LONG_MAX else v)
  }

  /** The decimal representation of n, without sign or leading zeros. */
  function Decimal(n: nat): (r: string)
    ensures |r| > 0 && forall k :: 0 <= k < |r| ==> IsDigit(r[k])
  {
    (if n < 10 then [] else Decimal(n / 10)) + [(('0' as int) + n % 10) as char]
  }

  /** One more digit at the end multiplies the value so far by ten and adds it. */
  lemma {:induction false} DigitsAppend(d: string, c: char, acc: nat)
    requires forall k :: 0 <= k < |d| ==> IsDigit(d[k])
    requires IsDigit(c)
    ensures Digits(d + [c], acc) == Digits(d, acc) * 10 + DigitValue(c)
    decreases |d|
  {
    if d == [] {
      assert ([] + [c])[1..] == [];
    } else {
      assert (d + [c])[1..] == d[1..] + [c];
      DigitsAppend(d[1..], c, acc * 10 + DigitValue(d[0]));
    }
  }

  lemma {:induction false} DigitsOfDecimal(n: nat)
    ensures Digits(Decimal(n), 0) == n
  {
    var c := (('0' as int) + n % 10) as char;
    if n < 10 {
      assert Decimal(n) == [c];
    } else {
      DigitsOfDecimal(n / 10);
      DigitsAppend(Decimal(n / 10), c, 0);
    }
  }

  /** strtol reads back what Decimal writes, with or without a minus sign, within the range of a long. */
  lemma StrToLOfDecimal(n: nat)
    requires n <= LONG_MAX
    ensures StrToL(Decimal(n)) == n
    ensures StrToL("-" + Decimal(n)) == -(n as int)
  {
    DigitsOfDecimal(n);
    var d := Decimal(n);
    assert !StringViews.IsSpace(d[0]);
    assert d[0..] == d;
    var m := "-" + d;
    assert !StringViews.IsSpace(m[0]);
    assert m[0..] == m && m[1..] == d;
  }

  /** Leading whitespace is skipped. */
  lemma StrToLSkipsSpace(c: char, s: string)
    requires StringViews.IsSpace(c)
    ensures StrToL([c] + s) == StrToL(s)
  {
    var t := [c] + s;
    assert t[1..] == s;
    assert t[StringViews.LeadingSpaces(t)..] == s[StringViews.LeadingSpaces(s)..];
  }

  /** Without a leading digit (after whitespace and sign) strtol gives 0. */
  lemma StrToLNoDigits(s: string)
    requires s == [] || !(IsDigit(s[0]) || StringViews.IsSpace(s[0]) || s[0] == '-' || s[0] == '+')
    ensures StrToL(s) == 0
  {
    assert s[StringViews.LeadingSpaces(s)..] == s;
  }

  // ---------------------------------------------------------------------------
  // The configuration and its validation
  // ---------------------------------------------------------------------------

  /** The fields of DatabaseConfig as a value. */
  datatype Settings = Settings(
    dbFilePath: string,
    pageSize: nat,
    cacheSizeMb: nat,
    port: nat,
    enableWal: bool,
    readOnly: bool,
    logLevel: LogLevel)

  /** What db_config_init_defaults stores. */
  function Defaults(): (r: Settings)
    ensures r.dbFilePath == "database.db" && r.pageSize == 4096 && r.cacheSizeMb == 64 && r.port == 5432
    ensures !r.enableWal && !r.readOnly && r.logLevel == Info
  {
    Settings(DEFAULT_DB_FILE, DEFAULT_PAGE_SIZE, DEFAULT_CACHE_SIZE_MB, DEFAULT_PORT, false, false, Info)
  }

  /** The ranges db_config_from_args enforces on the values it stores. */
  predicate Admissible(s: Settings)
  {
    && 1 <= s.port <= 65535
    && 1 <= s.cacheSizeMb <= 8192
    && 512 <= s.pageSize <= 65536 && IsPowerOfTwo(s.pageSize)
  }

  lemma DefaultsAdmissible()
    ensures Admissible(Defaults())
  {
    assert IsPowerOfTwo(2) && IsPowerOfTwo(4) && IsPowerOfTwo(8) && IsPowerOfTwo(16);
    assert IsPowerOfTwo(32) && IsPowerOfTwo(64) && IsPowerOfTwo(128) && IsPowerOfTwo(256);
    assert IsPowerOfTwo(512) && IsPowerOfTwo(1024) && IsPowerOfTwo(2048) && IsPowerOfTwo(4096);
  }

  /** The page-size test of db_config_from_args: range, then `(v & (v - 1)) == 0`. */
  predicate PageSizeRejected(v: int)
  {
    v < 512 || v > 65536 || And(v, v - 1) != 0
  }

  predicate IsHelp(a: string) { a == "-h" || a == "--help" }
  predicate IsFile(a: string) { a == "-f" || a == "--file" }
  predicate IsPort(a: string) { a == "-p" || a == "--port" }
  predicate IsCache(a: string) { a == "-c" || a == "--cache" }
  predicate IsPageSize(a: string) { a == "-s" || a == "--page-size" }
  predicate IsReadOnly(a: string) { a == "-r" || a == "--read-only" }
  predicate IsWal(a: string) { a == "-w" || a == "--wal" }
  predicate IsVerbose(a: string) { a == "-v" || a == "--verbose" }
  predicate IsQuiet(a: string) { a == "-q" || a == "--quiet" }

  /** What one iteration of the scan does: stop the scan, or go on at `next` with new settings. */
  datatype Step = Stop | Continue(next: nat, settings: Settings)

  /**
   * The body of the loop of db_config_from_args for argv[i]. A step that goes
   * on moves past the option (and its value), switches flags only on, and
   * changes no field but the one the option names.
   */
  function StepAt(args: seq<string>, i: nat, s: Settings): (r: Step)
    requires i < |args|
    ensures r.Continue? ==> i < r.next <= |args|
    ensures r.Continue? ==> (s.readOnly ==> r.settings.readOnly) && (s.enableWal ==> r.settings.enableWal)
    ensures r.Continue? && !IsFile(args[i]) ==> r.settings.dbFilePath == s.dbFilePath
    ensures r.Continue? && !IsPort(args[i]) ==> r.settings.port == s.port
    ensures r.Continue? && !IsCache(args[i]) ==> r.settings.cacheSizeMb == s.cacheSizeMb
    ensures r.Continue? && !IsPageSize(args[i]) ==> r.settings.pageSize == s.pageSize
    ensures r.Continue? && !IsReadOnly(args[i]) ==> r.settings.readOnly == s.readOnly
    ensures r.Continue? && !IsWal(args[i]) ==> r.settings.enableWal == s.enableWal
    ensures r.Continue? && !IsVerbose(args[i]) && !IsQuiet(args[i]) ==> r.settings.logLevel == s.logLevel
    ensures IsHelp(args[i]) ==> r == Stop
  {
    var arg := args[i];
    if IsHelp(arg) then Stop
    else if IsFile(arg) then
      if i + 1 >= |args| then Stop else Continue(i + 2, s.(dbFilePath := args[i + 1]))
    else if IsPort(arg) then
      if i + 1 >= |args| then Stop
      else
        var v := StrToL(args[i + 1]);
        if v <= 0 || v > 65535 then Stop else Continue(i + 2, s.(port := v))
    else if IsCache(arg) then
      if i + 1 >= |args| then Stop
      else
        var v := StrToL(args[i + 1]);
        if v <= 0 || v > 8192 then Stop else Continue(i + 2, s.(cacheSizeMb := v))
    else if IsPageSize(arg) then
      if i + 1 >= |args| then Stop
      else
        var v := StrToL(args[i + 1]);
        if PageSizeRejected(v) then Stop else Continue(i + 2, s.(pageSize := v))
    else if IsReadOnly(arg) then Continue(i + 1, s.(readOnly := true))
    else if IsWal(arg) then Continue(i + 1, s.(enableWal := true))
    else if IsVerbose(arg) then Continue(i + 1, s.(logLevel := Debug))
    else if IsQuiet(arg) then Continue(i + 1, s.(logLevel := Error))
    else Stop
  }

  /**
   * db_config_from_args from argument index i on, starting from settings s:
   * the result and the settings left behind. An option is applied as soon as
   * it is read, so a failure keeps what was applied before it.
   */
  function Run(args: seq<string>, i: nat, s: Settings): (bool, Settings)
    decreases |args| - i
  {
    if i >= |args| then (true, s)
    else match StepAt(args, i, s)
      case Stop => (false, s)
      case Continue(j, t) => Run(args, j, t)
  }

  /**
   * Each option, in the source's terms: help stops the scan; an option
   * needing a value stops it when it is last; a port is taken iff it is in
   * 1..65535, a cache size iff in 1..8192, a page size iff it is a power of
   * two in 512..65536; the flags are switched on and the level set; anything
   * that is not an option stops the scan.
   */
  lemma OptionSemantics(args: seq<string>, i: nat, s: Settings)
    requires i < |args|
    ensures IsHelp(args[i]) ==> Run(args, i, s) == (false, s)
    ensures IsFile(args[i]) && i + 1 < |args| ==> Run(args, i, s) == Run(args, i + 2, s.(dbFilePath := args[i + 1]))
    ensures (IsFile(args[i]) || IsPort(args[i]) || IsCache(args[i]) || IsPageSize(args[i])) && i + 1 == |args|
            ==> Run(args, i, s) == (false, s)
    ensures IsPort(args[i]) && i + 1 < |args| ==>
      var v := StrToL(args[i + 1]);
      Run(args, i, s) == if 1 <= v <= 65535 then Run(args, i + 2, s.(port := v)) else (false, s)
    ensures IsCache(args[i]) && i + 1 < |args| ==>
      var v := StrToL(args[i + 1]);
      Run(args, i, s) == if 1 <= v <= 8192 then Run(args, i + 2, s.(cacheSizeMb := v)) else (false, s)
    ensures IsPageSize(args[i]) && i + 1 < |args| ==>
      var v := StrToL(args[i + 1]);
      Run(args, i, s) == if 512 <= v <= 65536 && IsPowerOfTwo(v) then Run(args, i + 2, s.(pageSize := v)) else (false, s)
    ensures !(IsHelp(args[i]) || IsFile(args[i]) || IsPort(args[i]) || IsCache(args[i]) || IsPageSize(args[i])
              || IsReadOnly(args[i]) || IsWal(args[i]) || IsVerbose(args[i]) || IsQuiet(args[i]))
            ==> Run(args, i, s) == (false, s)
    ensures IsReadOnly(args[i]) ==> Run(args, i, s) == Run(args, i + 1, s.(readOnly := true))
    ensures IsWal(args[i]) ==> Run(args, i, s) == Run(args, i + 1, s.(enableWal := true))
    ensures IsVerbose(args[i]) ==> Run(args, i, s) == Run(args, i + 1, s.(logLevel := Debug))
    ensures IsQuiet(args[i]) ==> Run(args, i, s) == Run(args, i + 1, s.(logLevel := Error))
  {
    ValueOptionSemantics(args, i, s);
    PageSizeSemantics(args, i, s);
    FlagSemantics(args, i, s);
  }

  /** The options that take a value: the file path, the port and the cache size. */
  lemma ValueOptionSemantics(args: seq<string>, i: nat, s: Settings)
    requires i < |args|
    ensures (IsFile(args[i]) || IsPort(args[i]) || IsCache(args[i]) || IsPageSize(args[i])) && i + 1 == |args|
            ==> Run(args, i, s) == (false, s)
    ensures IsFile(args[i]) && i + 1 < |args| ==> Run(args, i, s) == Run(args, i + 2, s.(dbFilePath := args[i + 1]))
    ensures IsPort(args[i]) && i + 1 < |args| ==>
      var v := StrToL(args[i + 1]);
      Run(args, i, s) == if 1 <= v <= 65535 then Run(args, i + 2, s.(port := v)) else (false, s)
    ensures IsCache(args[i]) && i + 1 < |args| ==>
      var v := StrToL(args[i + 1]);
      Run(args, i, s) == if 1 <= v <= 8192 then Run(args, i + 2, s.(cacheSizeMb := v)) else (false, s)
  {
  }

  /** The page size is taken iff it is a power of two in 512..65536. */
  lemma PageSizeSemantics(args: seq<string>, i: nat, s: Settings)
    requires i < |args|
    ensures IsPageSize(args[i]) && i + 1 < |args| ==>
      var v := StrToL(args[i + 1]);
      Run(args, i, s) == if 512 <= v <= 65536 && IsPowerOfTwo(v) then Run(args, i + 2, s.(pageSize := v)) else (false, s)
  {
    if IsPageSize(args[i]) && i + 1 < |args| {
      var v := StrToL(args[i + 1]);
      assert StepAt(args, i, s) == if PageSizeRejected(v) then Stop else Continue(i + 2, s.(pageSize := v));
      assert !PageSizeRejected(v) <==> 512 <= v <= 65536 && IsPowerOfTwo(v) by {
        if 512 <= v <= 65536 {
          PowerOfTwoTest(v);
        }
      }
    }
  }

  /** Help and anything that is not an option stop the scan; the four flags go on at the next argument. */
  lemma FlagSemantics(args: seq<string>, i: nat, s: Settings)
    requires i < |args|
    ensures IsHelp(args[i]) ==> Run(args, i, s) == (false, s)
    ensures !(IsHelp(args[i]) || IsFile(args[i]) || IsPort(args[i]) || IsCache(args[i]) || IsPageSize(args[i])
              || IsReadOnly(args[i]) || IsWal(args[i]) || IsVerbose(args[i]) || IsQuiet(args[i]))
            ==> Run(args, i, s) == (false, s)
    ensures IsReadOnly(args[i]) ==> Run(args, i, s) == Run(args, i + 1, s.(readOnly := true))
    ensures IsWal(args[i]) ==> Run(args, i, s) == Run(args, i + 1, s.(enableWal := true))
    ensures IsVerbose(args[i]) ==> Run(args, i, s) == Run(args, i + 1, s.(logLevel := Debug))
    ensures IsQuiet(args[i]) ==> Run(args, i, s) == Run(args, i + 1, s.(logLevel := Error))
  {
  }

  /** One step stores only checked values. */
  lemma StepKeepsAdmissible(args: seq<string>, i: nat, s: Settings)
    requires i < |args| && Admissible(s)
    ensures StepAt(args, i, s).Continue? ==> Admissible(StepAt(args, i, s).settings)
  {
    var arg := args[i];
    if IsHelp(arg) || IsFile(arg) || i + 1 >= |args| {
    } else if IsPort(arg) {
      var v := StrToL(args[i + 1]);
      assert StepAt(args, i, s).Continue? ==> StepAt(args, i, s).settings == s.(port := v);
    } else if IsCache(arg) {
      var v := StrToL(args[i + 1]);
      assert StepAt(args, i, s).Continue? ==> StepAt(args, i, s).settings == s.(cacheSizeMb := v);
    } else if IsPageSize(arg) {
      var v := StrToL(args[i + 1]);
      if 512 <= v <= 65536 {
        PowerOfTwoTest(v);
      }
      assert StepAt(args, i, s).Continue? ==> StepAt(args, i, s).settings == s.(pageSize := v) && !PageSizeRejected(v);
    }
  }

  /** Admissible settings stay admissible, whatever the outcome of the scan. */
  lemma {:induction false} RunKeepsAdmissible(args: seq<string>, i: nat, s: Settings)
    requires Admissible(s)
    ensures Admissible(Run(args, i, s).1)
    decreases |args| - i
  {
    if i < |args| {
      StepKeepsAdmissible(args, i, s);
      var st := StepAt(args, i, s);
      if st.Continue? {
        RunKeepsAdmissible(args, st.next, st.settings);
      }
    }
  }

  /**
   * What the scan cannot touch: the two flags are only ever switched on, and
   * a field none of whose options occurs among the remaining arguments keeps
   * its value.
   */
  lemma {:induction false} RunFieldFrame(args: seq<string>, i: nat, s: Settings)
    ensures s.readOnly ==> Run(args, i, s).1.readOnly
    ensures s.enableWal ==> Run(args, i, s).1.enableWal
    ensures (forall j :: i <= j < |args| ==> !IsFile(args[j])) ==> Run(args, i, s).1.dbFilePath == s.dbFilePath
    ensures (forall j :: i <= j < |args| ==> !IsPort(args[j])) ==> Run(args, i, s).1.port == s.port
    ensures (forall j :: i <= j < |args| ==> !IsCache(args[j])) ==> Run(args, i, s).1.cacheSizeMb == s.cacheSizeMb
    ensures (forall j :: i <= j < |args| ==> !IsPageSize(args[j])) ==> Run(args, i, s).1.pageSize == s.pageSize
    ensures (forall j :: i <= j < |args| ==> !IsReadOnly(args[j])) ==> Run(args, i, s).1.readOnly == s.readOnly
    ensures (forall j :: i <= j < |args| ==> !IsWal(args[j])) ==> Run(args, i, s).1.enableWal == s.enableWal
    ensures (forall j :: i <= j < |args| ==> !IsVerbose(args[j]) && !IsQuiet(args[j]))
            ==> Run(args, i, s).1.logLevel == s.logLevel
    decreases |args| - i
  {
    if i < |args| {
      var st := StepAt(args, i, s);
      if st.Continue? {
        RunFieldFrame(args, st.next, st.settings);
      }
    }
  }

  /** Of -v and -q the later one decides the level. */
  lemma LaterLevelWins(prog: string, s: Settings)
    ensures Run([prog, "-v", "-q"], 1, s) == (true, s.(logLevel := Error))
    ensures Run([prog, "--quiet", "--verbose"], 1, s) == (true, s.(logLevel := Debug))
  {
    VerboseThenQuiet(prog, s);
    QuietThenVerbose(prog, s);
  }

  lemma VerboseThenQuiet(prog: string, s: Settings)
    ensures Run([prog, "-v", "-q"], 1, s) == (true, s.(logLevel := Error))
  {
    var a := [prog, "-v", "-q"];
    var a1, a2 := s.(logLevel := Debug), s.(logLevel := Error);
    assert StepAt(a, 1, s) == Continue(2, a1);
    assert StepAt(a, 2, a1) == Continue(3, a2);
    assert Run(a, 2, a1) == Run(a, 3, a2) == (true, a2);
  }

  lemma QuietThenVerbose(prog: string, s: Settings)
    ensures Run([prog, "--quiet", "--verbose"], 1, s) == (true, s.(logLevel := Debug))
  {
    var b := [prog, "--quiet", "--verbose"];
    var b1, b2 := s.(logLevel := Error), s.(logLevel := Debug);
    assert StepAt(b, 1, s) == Continue(2, b1);
    assert StepAt(b, 2, b1) == Continue(3, b2);
    assert Run(b, 2, b1) == Run(b, 3, b2) == (true, b2);
  }

  /** A help request stops the scan, but options read before it stay applied. */
  lemma HelpKeepsEarlierOptions(prog: string, s: Settings)
    ensures Run([prog, "-w", "--help", "-r"], 1, s) == (false, s.(enableWal := true))
  {
    var c := [prog, "-w", "--help", "-r"];
    assert StepAt(c, 1, s) == Continue(2, s.(enableWal := true));
    assert StepAt(c, 2, s.(enableWal := true)) == Stop;
  }

  /** A page size written in decimal is accepted iff it is a power of two in 512..65536. */
  lemma PageSizeOption(prog: string, n: nat, s: Settings)
    requires n <= LONG_MAX
    ensures Run([prog, "-s", Decimal(n)], 1, s).0 <==> 512 <= n <= 65536 && IsPowerOfTwo(n)
  {
    StrToLOfDecimal(n);
    OptionSemantics([prog, "-s", Decimal(n)], 1, s);
  }

  // ---------------------------------------------------------------------------
  // DatabaseConfig
  // ---------------------------------------------------------------------------

  class DatabaseConfig {
    var dbFilePath: string
    var pageSize: nat
    var cacheSizeMb: nat
    var port: nat
    var enableWal: bool
    var readOnly: bool
    var logLevel: LogLevel

    function State(): Settings
      reads this
    {
      Settings(dbFilePath, pageSize, cacheSizeMb, port, enableWal, readOnly, logLevel)
    }

    /** db_config_init_defaults. */
    method InitDefaults()
      modifies this
      ensures State() == Defaults()
    {
      dbFilePath := DEFAULT_DB_FILE;
      pageSize := DEFAULT_PAGE_SIZE;
      cacheSizeMb := DEFAULT_CACHE_SIZE_MB;
      port := DEFAULT_PORT;
      enableWal := false;
      readOnly := false;
      logLevel := Info;
    }

    /**
     * db_config_from_args: scans argv from index 1 (argv[0] is the program
     * name), writing each option into the fields as it goes.
     */
    method FromArgs(argv: seq<string>) returns (ok: bool)
      modifies this
      ensures (ok, State()) == Run(argv, 1, old(State()))
    {
      var i := 1;
      while i < |argv|
        invariant 1 <= i
        invariant Run(argv, 1, old(State())) == Run(argv, i, State())
        decreases |argv| - i
      {
        var stop, next := ApplyOption(argv, i);
        if stop {
          return false;
        }
        i := next;
      }
      return true;
    }

    /**
     * One pass of the scanning loop of db_config_from_args at argv[i]: the
     * option, and its value when it takes one, is applied to the fields, or
     * the scan stops (help, a missing or rejected value, an unknown option)
     * with the fields as they were.
     */
    method ApplyOption(argv: seq<string>, i: nat) returns (stop: bool, next: nat)
      requires i < |argv|
      modifies this
      ensures stop <==> StepAt(argv, i, old(State())).Stop?
      ensures stop ==> State() == old(State())
      ensures !stop ==> StepAt(argv, i, old(State())) == Continue(next, State())
    {
      var arg := argv[i];
      stop := true;
      next := i + 1;
      if arg == "-h" || arg == "--help" {
        return;
      } else if arg == "-f" || arg == "--file" {
        if i + 1 >= |argv| {
          return;
        }
        dbFilePath := argv[i + 1];
        next := i + 2;
      } else if arg == "-p" || arg == "--port" {
        if i + 1 >= |argv| {
          return;
        }
        var v := StrToL(argv[i + 1]);
        if v <= 0 || v > 65535 {
          return;
        }
        port := v;
        next := i + 2;
      } else if arg == "-c" || arg == "--cache" {
        if i + 1 >= |argv| {
          return;
        }
        var v := StrToL(argv[i + 1]);
        if v <= 0 || v > 8192 {
          return;
        }
        cacheSizeMb := v;
        next := i + 2;
      } else if arg == "-s" || arg == "--page-size" {
        if i + 1 >= |argv| {
          return;
        }
        var v := StrToL(argv[i + 1]);
        if v < 512 || v > 65536 || And(v, v - 1) != 0 {
          return;
        }
        pageSize := v;
        next := i + 2;
      } else if arg == "-r" || arg == "--read-only" {
        readOnly := true;
      } else if arg == "-w" || arg == "--wal" {
        enableWal := true;
      } else if arg == "-v" || arg == "--verbose" {
        logLevel := Debug;
      } else if arg == "-q" || arg == "--quiet" {
        logLevel := Error;
      } else {
        return;
      }
      stop := false;
    }
  }

  /** Starting from the defaults, a configuration the scanner leaves behind is always admissible. */
  method ParseFromDefaults(argv: seq<string>) returns (c: DatabaseConfig, ok: bool)
    ensures Admissible(c.State())
    ensures (ok, c.State()) == Run(argv, 1, Defaults())
  {
    c := new DatabaseConfig;
    c.InitDefaults();
    ok := c.FromArgs(argv);
    DefaultsAdmissible();
    RunKeepsAdmissible(argv, 1, Defaults());
  }
}
