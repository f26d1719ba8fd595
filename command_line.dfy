/** The pure pieces of `main`: the start URL, `-d=` and `-x=` parsing
    (src/main_v6.rs:116-130, src/main.rs:84-98, and the copies in
    src/main_test.rs:8-20), the positional depth of src/main_v2.rs:58-62,
    and the hours/minutes/seconds split of the elapsed time. */
module CommandLine {
  import opened Options
  import opened Text

  const U32Limit: int := 0x1_0000_0000
  type u32 = x: int | 0 <= x < 0x1_0000_0000

  /** The depth used when none is given or it does not parse. */
  const DefaultDepth: u32 := 3

  predicate AllDigits(s: string) {
    forall i :: 0 <= i < |s| ==> IsDigit(s[i])
  }

  function DigitValue(c: char): nat
    requires IsDigit(c)
  {
    c as int - '0' as int
  }

  /** The number a string of decimal digits denotes. */
  function DecimalValue(s: string): nat
    requires AllDigits(s)
  {
    if s == [] then 0 else DecimalValue(s[..|s| - 1]) * 10 + DigitValue(s[|s| - 1])
  }

  /** `str::parse::<u32>`: an optional `+` and then one or more ASCII digits
      whose value fits in 32 bits; anything else, `-1` and the empty string
      included, fails. */
  function ParseU32(s: string): Option<u32> {
    var digits := if |s| > 1 && s[0] == '+' then s[1..] else s;
    if digits == [] || !AllDigits(digits) then None
    else if DecimalValue(digits) < U32Limit then Some(DecimalValue(digits))
    else None
  }

  /** The decimal form of a number, without leading zeros. */
  function ToDecimal(n: nat): (s: string)
    ensures s != [] && AllDigits(s)
  {
    var last := ('0' as int + n % 10) as char;
    if n < 10 then [last] else ToDecimal(n / 10) + [last]
  }

  lemma {:induction false} DecimalValueOfToDecimal(n: nat)
    ensures DecimalValue(ToDecimal(n)) == n
  {
    var s := ToDecimal(n);
    if n >= 10 {
      DecimalValueOfToDecimal(n / 10);
      assert s[..|s| - 1] == ToDecimal(n / 10);
    }
  }

  /** Parsing inverts printing for every `u32`, with or without a `+` sign. */
  lemma ParseU32RoundTrip(n: u32)
    ensures ParseU32(ToDecimal(n)) == Some(n)
    ensures ParseU32("+" + ToDecimal(n)) == Some(n)
  {
    DecimalValueOfToDecimal(n);
    assert ("+" + ToDecimal(n))[1..] == ToDecimal(n);
  }

  /** A leading minus sign never parses, and neither does a value of 2^32
      or more. */
  lemma ParseU32Rejects(s: string)
    ensures ParseU32("-" + s) == None
    ensures AllDigits(s) && s != [] && DecimalValue(s) >= U32Limit ==> ParseU32(s) == None
  {
    assert ("-" + s)[0] == '-';
  }

  /** `args.iter().find(|arg| arg.starts_with(prefix)).map(|arg| arg.strip_prefix(prefix).unwrap())`. */
  function FindPrefixed(args: seq<string>, prefix: string): Option<string> {
    if args == [] then None
    else if StartsWith(args[0], prefix) then Some(args[0][|prefix|..])
    else FindPrefixed(args[1..], prefix)
  }

  /** Argument `i` is the first one that starts with `prefix`. */
  predicate FirstPrefixedAt(args: seq<string>, prefix: string, i: int) {
    && 0 <= i < |args|
    && StartsWith(args[i], prefix)
    && forall j :: 0 <= j < i ==> !StartsWith(args[j], prefix)
  }

  /** The search finds the suffix of the first argument with the prefix, and
      nothing when no argument has it. */
  lemma {:induction false} FindPrefixedIsFirst(args: seq<string>, prefix: string)
    ensures (forall i :: 0 <= i < |args| ==> !StartsWith(args[i], prefix)) <==> FindPrefixed(args, prefix) == None
    ensures forall i :: FirstPrefixedAt(args, prefix, i) ==> FindPrefixed(args, prefix) == Some(args[i][|prefix|..])
  {
    if args != [] {
      FindPrefixedIsFirst(args[1..], prefix);
      if !StartsWith(args[0], prefix) {
        if FindPrefixed(args, prefix) == None {
          forall i | 0 <= i < |args| ensures !StartsWith(args[i], prefix) {
            if i > 0 { assert args[i] == args[1..][i - 1]; }
          }
        }
        forall i | FirstPrefixedAt(args, prefix, i) ensures FindPrefixed(args, prefix) == Some(args[i][|prefix|..]) {
          assert args[i] == args[1..][i - 1];
          assert FirstPrefixedAt(args[1..], prefix, i - 1) by {
            forall j | 0 <= j < i - 1 ensures !StartsWith(args[1..][j], prefix) {
              assert args[1..][j] == args[j + 1];
            }
          }
        }
      }
    }
  }

  /** Arguments after the first match are never looked at. */
  lemma {:induction false} FindPrefixedIgnoresLater(args: seq<string>, later: seq<string>, prefix: string)
    requires FindPrefixed(args, prefix).Some?
    ensures FindPrefixed(args + later, prefix) == FindPrefixed(args, prefix)
  {
    assert (args + later)[0] == args[0];
    if !StartsWith(args[0], prefix) {
      assert (args + later)[1..] == args[1..] + later;
      FindPrefixedIgnoresLater(args[1..], later, prefix);
    }
  }

  /** `get_depth_from_args` (src/main_test.rs:8-14), the same expression as the
      `depth` of `main` in src/main.rs:90-94 and src/main_v6.rs:122-126. */
  function DepthFromArgs(args: seq<string>): u32 {
    match FindPrefixed(args, "-d=")
    case Some(value) => ParseU32(value).GetOr(DefaultDepth)
    case None => DefaultDepth
  }

  /** `get_pattern_file_from_args` (src/main_test.rs:16-20), the same
      expression as `pattern_file` in src/main_v6.rs:128-130. */
  function PatternFileFromArgs(args: seq<string>): Option<string> {
    FindPrefixed(args, "-x=")
  }

  /** The depth is the first `-d=` value when it parses as a `u32` and 3
      otherwise; a later `-d=` never changes it. */
  lemma DepthFromArgsSpec(args: seq<string>, later: seq<string>)
    ensures (forall i :: 0 <= i < |args| ==> !StartsWith(args[i], "-d=")) ==> DepthFromArgs(args) == DefaultDepth
    ensures forall i :: FirstPrefixedAt(args, "-d=", i) ==>
      DepthFromArgs(args) == ParseU32(args[i][3..]).GetOr(DefaultDepth)
    ensures forall i :: FirstPrefixedAt(args, "-d=", i) ==> DepthFromArgs(args + later) == DepthFromArgs(args)
  {
    FindPrefixedIsFirst(args, "-d=");
    if FindPrefixed(args, "-d=").Some? {
      FindPrefixedIgnoresLater(args, later, "-d=");
    }
  }

  /** The pattern file is the suffix of the first `-x=` argument, and absent
      when there is none. */
  lemma PatternFileFromArgsSpec(args: seq<string>)
    ensures (forall i :: 0 <= i < |args| ==> !StartsWith(args[i], "-x=")) <==> PatternFileFromArgs(args) == None
    ensures forall i :: FirstPrefixedAt(args, "-x=", i) ==> PatternFileFromArgs(args) == Some(args[i][3..])
  {
    FindPrefixedIsFirst(args, "-x=");
  }

  /** The values asserted in the crate's `test_depth_parsing`, except its
      first assertion, which expects 5 where the code yields 3. */
  lemma DepthFromArgsExamples()
    ensures DepthFromArgs(["program"]) == 3
    ensures DepthFromArgs(["program", "-d=5"]) == 5
    ensures DepthFromArgs(["program", "http://example.com", "-d=2"]) == 2
    ensures DepthFromArgs(["program", "-d=invalid"]) == 3
    ensures DepthFromArgs(["program", "-d=4", "-d=6"]) == 4
    ensures DepthFromArgs(["program", "-d=-1"]) == 3
  {
    DepthNoFlag();
    DepthFive();
    DepthAfterUrl();
    DepthFirstWins();
    DepthInvalid();
    DepthNegative();
  }

  lemma DepthNoFlag()
    ensures DepthFromArgs(["program"]) == 3
  {
    NotDepthFlag("program");
    DepthFromArgsSpec(["program"], []);
  }

  lemma DepthFive()
    ensures DepthFromArgs(["program", "-d=5"]) == 5
  {
    NotDepthFlag("program");
    DepthFlagValue(["program"], "5", 5);
    assert "-d=" + "5" == "-d=5";
    assert ["program"] + ["-d=" + "5"] == ["program", "-d=5"];
  }

  lemma DepthAfterUrl()
    ensures DepthFromArgs(["program", "http://example.com", "-d=2"]) == 2
  {
    NotDepthFlag("program");
    NotDepthFlag("http://example.com");
    DepthFlagValue(["program", "http://example.com"], "2", 2);
    assert "-d=" + "2" == "-d=2";
    assert ["program", "http://example.com"] + ["-d=" + "2"] == ["program", "http://example.com", "-d=2"];
  }

  lemma DepthFirstWins()
    ensures DepthFromArgs(["program", "-d=4", "-d=6"]) == 4
  {
    NotDepthFlag("program");
    DepthFlagValue(["program"], "4", 4);
    assert "-d=" + "4" == "-d=4";
    assert ["program"] + ["-d=" + "4"] == ["program", "-d=4"];
    DepthFromArgsSpec(["program", "-d=4"], ["-d=6"]);
    assert FirstPrefixedAt(["program", "-d=4"], "-d=", 1) by {
      assert ("-d=" + "4")[..3] == "-d=";
    }
    assert ["program", "-d=4"] + ["-d=6"] == ["program", "-d=4", "-d=6"];
  }

  lemma DepthInvalid()
    ensures DepthFromArgs(["program", "-d=invalid"]) == 3
  {
    DepthFlagRejected("invalid");
    assert "-d=" + "invalid" == "-d=invalid";
  }

  lemma DepthNegative()
    ensures DepthFromArgs(["program", "-d=-1"]) == 3
  {
    DepthFlagRejected("-1");
    assert "-d=" + "-1" == "-d=-1";
  }

  lemma NotDepthFlag(arg: string)
    requires arg != [] && arg[0] != '-'
    ensures !StartsWith(arg, "-d=")
  {
  }

  /** `-d=` followed by a one-digit value, after arguments without the flag. */
  lemma DepthFlagValue(before: seq<string>, value: string, d: u32)
    requires forall i :: 0 <= i < |before| ==> !StartsWith(before[i], "-d=")
    requires |value| == 1 && IsDigit(value[0]) && DigitValue(value[0]) == d
    ensures DepthFromArgs(before + ["-d=" + value]) == d
  {
    var args := before + ["-d=" + value];
    assert args[|before|] == "-d=" + value;
    assert ("-d=" + value)[..3] == "-d=";
    assert ("-d=" + value)[3..] == value;
    assert FirstPrefixedAt(args, "-d=", |before|) by {
      forall j | 0 <= j < |before| ensures !StartsWith(args[j], "-d=") {
        assert args[j] == before[j];
      }
    }
    assert value[..0] == [];
    assert DecimalValue(value) == d;
    assert ParseU32(value) == Some(d);
    DepthFromArgsSpec(args, []);
  }

  /** `-d=` followed by a value that is not a `u32` falls back to 3. */
  lemma DepthFlagRejected(value: string)
    requires value != [] && !IsDigit(value[0]) && value[0] != '+'
    ensures DepthFromArgs(["program", "-d=" + value]) == DefaultDepth
  {
    var args := ["program", "-d=" + value];
    NotDepthFlag("program");
    assert ("-d=" + value)[..3] == "-d=";
    assert ("-d=" + value)[3..] == value;
    assert FirstPrefixedAt(args, "-d=", 1);
    DepthFromArgsSpec(args, []);
  }

  /** The values asserted in the crate's `test_pattern_file_parsing`. */
  lemma PatternFileFromArgsExamples()
    ensures PatternFileFromArgs(["program"]) == None
    ensures PatternFileFromArgs(["program", "-x=patterns.txt"]) == Some("patterns.txt")
    ensures PatternFileFromArgs(["program", "-x=patterns1.txt", "-x=patterns2.txt"]) == Some("patterns1.txt")
  {
    assert !StartsWith("program", "-x=") by { assert "program"[0] != '-'; }
    assert "-x=patterns.txt"[3..] == "patterns.txt";
    assert "-x=patterns1.txt"[3..] == "patterns1.txt";
  }

  /** The positional depth of src/main_v2.rs:58-62: `args[2]` parsed as a
      `u32`, or 3 when it is absent or does not parse. */
  function PositionalDepth(args: seq<string>): (d: u32)
    ensures |args| <= 2 ==> d == DefaultDepth
    ensures |args| > 2 && ParseU32(args[2]).None? ==> d == DefaultDepth
    ensures |args| > 2 && ParseU32(args[2]).Some? ==> d == ParseU32(args[2]).value
  {
    if |args| > 2 then ParseU32(args[2]).GetOr(DefaultDepth) else DefaultDepth
  }

  /** The start URL: the first argument after the program name, or
      `http://localhost/`. */
  function StartUrl(args: seq<string>): string {
    if |args| > 1 then args[1] else "http://localhost/"
  }

  datatype Command = Help | Run(startUrl: string, maxDepth: u32, patternFile: Option<string>)

  /** What `main` of src/main_v6.rs:103-130 decides to do from its arguments. */
  function ParseCommandLine(args: seq<string>): Command {
    if |args| == 2 && (args[1] == "-h" || args[1] == "--help") then Help
    else Run(StartUrl(args), DepthFromArgs(args), PatternFileFromArgs(args))
  }

  /** Help is printed only when the flag is the sole argument; with anything
      after it, the flag is taken for the start URL. */
  lemma HelpOnlyAlone(flag: string, more: string)
    requires flag == "-h" || flag == "--help"
    ensures ParseCommandLine(["program", flag]) == Help
    ensures ParseCommandLine(["program", flag, more]).Run?
    ensures ParseCommandLine(["program", flag, more]).startUrl == flag
  {
  }

  datatype Clock = Clock(hours: nat, minutes: nat, seconds: nat)

  /** The split of `elapsed_seconds` into hours, minutes and seconds
      (src/main.rs:129-132). */
  function SplitElapsed(elapsedSeconds: nat): (c: Clock)
    ensures c.hours * 3600 + c.minutes * 60 + c.seconds == elapsedSeconds
    ensures c.minutes < 60 && c.seconds < 60
  {
    var hours, rest := elapsedSeconds / 3600, elapsedSeconds % 3600;
    var minutes := rest / 60;
    assert elapsedSeconds == (hours * 60 + minutes) * 60 + rest % 60;
    Clock(hours, minutes, elapsedSeconds % 60)
  }

  /** The split is the only one with minutes and seconds below 60. */
  lemma SplitElapsedUnique(elapsedSeconds: nat, c: Clock)
    requires c.hours * 3600 + c.minutes * 60 + c.seconds == elapsedSeconds
    requires c.minutes < 60 && c.seconds < 60
    ensures c == SplitElapsed(elapsedSeconds)
  {
    var d := SplitElapsed(elapsedSeconds);
    assert c.minutes * 60 + c.seconds < 3600;
    assert d.minutes * 60 + d.seconds < 3600;
    assert c.hours == d.hours;
  }
}
