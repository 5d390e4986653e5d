/**
 * The command-line part of `base_initialize` (base.c): the argv loop that
 * sets the game path and the `-c`, `-m`, `-p` and `-d` options, then the
 * defaults for whatever was not given.
 *
 * Only the second character of an argument starting with `-` is looked at,
 * so `-config` is `-c` and `--config` is an unknown option.  `-h` prints the
 * usage and exits, which is the `ShowHelp` outcome here.  An option letter
 * with no argument after it makes the source read `argv[argc]`, a NULL
 * pointer; that is the `ValueMissing` outcome.  `SDL_GetPrefPath` is a
 * parameter of the parse, as its result may also be NULL.
 */
module Options {
  import opened Common
  import Numerals

  /** The options read so far; `None` is a global still NULL. */
  datatype Settings = Settings(game: Option<string>, config: Option<string>, main: Option<string>,
                               data: Option<string>, pool: int)

  /** The globals as set before the loop: every path NULL and a pool size of 0. */
  const Unset: Settings := Settings(None, None, None, None, 0)

  /** How the argv loop ends. */
  datatype Scan = Scanned(settings: Settings) | Help | MissingValue

  /** The configuration `base_initialize` goes on with. */
  datatype Config = Config(gamePath: string, configScript: string, mainScript: string,
                           dataPath: Option<string>, poolSize: int, fps: int)

  datatype Parse = Run(config: Config) | ShowHelp | ValueMissing

  /** `isspace` in the C locale: space, tab, newline, vertical tab, form feed, carriage return. */
  predicate IsSpace(c: char)
  {
    c == ' ' || '\t' <= c <= '\r'
  }

  predicate IsDecimalDigit(c: char)
  {
    '0' <= c <= '9'
  }

  /** `s` after its leading white space. */
  function SkipSpace(s: string): string
  {
    if |s| > 0 && IsSpace(s[0]) then SkipSpace(s[1..]) else s
  }

  /** The longest prefix of `s` made of decimal digits. */
  function LeadingDigits(s: string): string
  {
    if |s| > 0 && IsDecimalDigit(s[0]) then [s[0]] + LeadingDigits(s[1..]) else []
  }

  /**
   * `SDL_atoi`: leading white space, an optional sign, then as many decimal
   * digits as follow; no digits read as 0.
   */
  function Atoi(s: string): int
  {
    Signed(SkipSpace(s))
  }

  /** The value of a number after the white space: an optional sign, then the digits that follow. */
  function Signed(t: string): int
  {
    if |t| > 0 && t[0] == '-' then -(Numerals.ParseNat(LeadingDigits(t[1..]), 10) as int)
    else if |t| > 0 && t[0] == '+' then Numerals.ParseNat(LeadingDigits(t[1..]), 10)
    else Numerals.ParseNat(LeadingDigits(t), 10)
  }

  /** Text without a single digit reads as 0. */
  lemma AtoiWithoutDigits(s: string)
    requires forall i :: 0 <= i < |s| ==> !IsDecimalDigit(s[i])
    ensures Atoi(s) == 0
  {
    var t := SkipSpace(s);
    SkipSpaceSuffix(s);
    if |t| > 1 {
      assert t[1..][0] == s[|s| - |t| + 1];
    }
    if |t| > 0 {
      assert t[0] == s[|s| - |t|];
    }
  }

  /** What is left after the white space is a suffix of the text, and only white space was skipped. */
  lemma {:induction false} SkipSpaceSuffix(s: string)
    ensures |SkipSpace(s)| <= |s| && SkipSpace(s) == s[|s| - |SkipSpace(s)|..]
    ensures forall i :: 0 <= i < |s| - |SkipSpace(s)| ==> IsSpace(s[i])
    ensures |SkipSpace(s)| == 0 || !IsSpace(SkipSpace(s)[0])
    decreases |s|
  {
    if |s| > 0 && IsSpace(s[0]) {
      SkipSpaceSuffix(s[1..]);
      forall i | 0 <= i < |s| - |SkipSpace(s)|
        ensures IsSpace(s[i])
      {
        if i > 0 {
          assert s[i] == s[1..][i - 1];
        }
      }
    }
  }

  /** A text of decimal digits is its own leading-digit run, even with more text after it that does not start with a digit. */
  lemma {:induction false} LeadingDigitsOfDigits(d: string, rest: string)
    requires forall i :: 0 <= i < |d| ==> IsDecimalDigit(d[i])
    requires |rest| == 0 || !IsDecimalDigit(rest[0])
    ensures LeadingDigits(d + rest) == d
    decreases |d|
  {
    if |d| > 0 {
      assert (d + rest)[1..] == d[1..] + rest;
      LeadingDigitsOfDigits(d[1..], rest);
      assert d == [d[0]] + d[1..];
    } else {
      assert d + rest == rest;
    }
  }

  /** Decimal digit characters are exactly the base-10 digits. */
  lemma DecimalDigitIsDigit(c: char)
    requires Numerals.IsDigitChar(c, 10)
    ensures IsDecimalDigit(c)
  {
    var d :| 0 <= d < 10 && Numerals.DigitChar(d) == c;
  }

  /** A run of digits followed by text that does not go on with a digit reads as its value. */
  lemma AtoiOfDigits(digits: string, rest: string)
    requires |digits| > 0 && forall i :: 0 <= i < |digits| ==> IsDecimalDigit(digits[i])
    requires |rest| == 0 || !IsDecimalDigit(rest[0])
    ensures Atoi(digits + rest) == Numerals.ParseNat(digits, 10)
  {
    var s := digits + rest;
    assert s[0] == digits[0];
    NoSpaceToSkip(s);
    LeadingDigitsOfDigits(digits, rest);
    assert Signed(s) == Numerals.ParseNat(LeadingDigits(s), 10);
  }

  /** The same run after a minus sign reads as its negation. */
  lemma AtoiOfNegatedDigits(digits: string, rest: string)
    requires |digits| > 0 && forall i :: 0 <= i < |digits| ==> IsDecimalDigit(digits[i])
    requires |rest| == 0 || !IsDecimalDigit(rest[0])
    ensures Atoi(['-'] + (digits + rest)) == -(Numerals.ParseNat(digits, 10) as int)
  {
    var t := digits + rest;
    var n := ['-'] + t;
    assert n[0] == '-';
    NoSpaceToSkip(n);
    assert n[1..] == t;
    LeadingDigitsOfDigits(digits, rest);
    assert Signed(n) == -(Numerals.ParseNat(LeadingDigits(t), 10) as int);
  }

  lemma NoSpaceToSkip(s: string)
    requires |s| > 0 && !IsSpace(s[0])
    ensures SkipSpace(s) == s
  {
  }

  /** The digits `%d` prints are decimal digits. */
  lemma DecimalDigits(m: nat)
    ensures |Numerals.NatText(m, 10)| > 0
    ensures forall i :: 0 <= i < |Numerals.NatText(m, 10)| ==> IsDecimalDigit(Numerals.NatText(m, 10)[i])
  {
    var digits := Numerals.NatText(m, 10);
    Numerals.NatTextDigits(m, 10);
    forall i | 0 <= i < |digits|
      ensures IsDecimalDigit(digits[i])
    {
      DecimalDigitIsDigit(digits[i]);
    }
  }

  /** `SDL_atoi` reads back what `%d` prints, whatever non-digit text follows it. */
  lemma AtoiDecimal(n: int, rest: string)
    requires |rest| == 0 || !IsDecimalDigit(rest[0])
    ensures Atoi(Numerals.Decimal(n) + rest) == n
  {
    if n < 0 {
      AtoiNegativeDecimal(n, rest);
    } else {
      assert Numerals.Decimal(n) == Numerals.NatText(n, 10);
      AtoiNatText(n, rest);
    }
  }

  /** The digits of `m`, unsigned or after a minus sign. */
  lemma AtoiNatText(m: nat, rest: string)
    requires |rest| == 0 || !IsDecimalDigit(rest[0])
    ensures Atoi(Numerals.NatText(m, 10) + rest) == m
    ensures Atoi(['-'] + (Numerals.NatText(m, 10) + rest)) == -(m as int)
  {
    DecimalDigits(m);
    Numerals.NatTextRoundTrip(m, 10);
    AtoiOfDigits(Numerals.NatText(m, 10), rest);
    AtoiOfNegatedDigits(Numerals.NatText(m, 10), rest);
  }

  lemma AtoiNegativeDecimal(n: int, rest: string)
    requires n < 0
    requires |rest| == 0 || !IsDecimalDigit(rest[0])
    ensures Atoi(Numerals.Decimal(n) + rest) == n
  {
    var digits := Numerals.NatText(-n, 10);
    var d := Numerals.Decimal(n);
    assert d == ['-'] + digits;
    assert (['-'] + digits) + rest == ['-'] + (digits + rest);
    var s := d + rest;
    assert s == ['-'] + (digits + rest);
    AtoiNatText(-n, rest);
  }

  /** Leading white space does not change the value. */
  lemma AtoiSkipsSpace(c: char, s: string)
    requires IsSpace(c)
    ensures Atoi([c] + s) == Atoi(s)
  {
    assert ([c] + s)[1..] == s;
  }

  /** Text that does not start with a number reads as 0. */
  lemma AtoiOfNonNumber(s: string)
    requires |s| > 0 && !IsSpace(s[0]) && !IsDecimalDigit(s[0]) && s[0] != '-' && s[0] != '+'
    ensures Atoi(s) == 0
  {
  }

  /** The letters of the options that take a value. */
  predicate TakesValue(opt: char)
  {
    opt == 'c' || opt == 'm' || opt == 'p' || opt == 'd'
  }

  /** One option with its value: `-c`, `-m` and `-d` keep a copy of it, `-p` converts it with `SDL_atoi`. */
  function Apply(st: Settings, opt: char, value: string): (st': Settings)
    requires TakesValue(opt)
    ensures opt == 'c' ==> st' == st.(config := Some(value))
    ensures opt == 'm' ==> st' == st.(main := Some(value))
    ensures opt == 'd' ==> st' == st.(data := Some(value))
    ensures opt == 'p' ==> st' == st.(pool := Atoi(value))
  {
    match opt
    case 'c' => st.(config := Some(value))
    case 'm' => st.(main := Some(value))
    case 'p' => st.(pool := Atoi(value))
    case 'd' => st.(data := Some(value))
  }

  /** `o` is what it was before, or else one of `args`. */
  predicate From(o: Option<string>, before: Option<string>, args: seq<string>)
  {
    o == before || (o.Some? && o.value in args)
  }

  /**
   * The argv loop from its current position: a word not starting with `-`
   * replaces the game path; `-h` ends the parse; `-c`, `-m`, `-p`, `-d`
   * take the next word, whatever it looks like; any other word starting
   * with `-` is skipped.
   */
  function ScanArgs(args: seq<string>, st: Settings): (r: Scan)
    ensures r.Scanned? ==> From(r.settings.game, st.game, args) && From(r.settings.config, st.config, args)
    ensures r.Scanned? ==> From(r.settings.main, st.main, args) && From(r.settings.data, st.data, args)
    decreases |args|
  {
    if |args| == 0 then Scanned(st)
    else
      var a := args[0];
      if CharAt(a, 0) != '-' then ScanArgs(args[1..], st.(game := Some(a)))
      else
        var opt := CharAt(a, 1);
        if opt == 'h' then Help
        else if TakesValue(opt) then
          if |args| < 2 then MissingValue else ScanArgs(args[2..], Apply(st, opt, args[1]))
        else ScanArgs(args[1..], st)
  }

  /** The value of an option after the loop, or its default. */
  function OrElse(o: Option<string>, default: string): (s: string)
    ensures o.Some? ==> s == o.value
    ensures o.None? ==> s == default
  {
    match o
    case Some(v) => v
    case None => default
  }

  /**
   * The argument handling of `base_initialize`: the loop over `argv[1..]`,
   * then the defaults "config.lua", "main.lua", "game.zip" and the
   * preference path, with 30 frames per second.
   */
  function ParseArgs(argv: seq<string>, prefPath: Option<string>): (r: Parse)
    ensures r.Run? ==> r.config.fps == 30
    ensures r.Run? ==> r.config.gamePath == "game.zip" || (|argv| > 0 && r.config.gamePath in argv[1..])
    ensures r.Run? ==> r.config.configScript == "config.lua" || (|argv| > 0 && r.config.configScript in argv[1..])
    ensures r.Run? ==> r.config.mainScript == "main.lua" || (|argv| > 0 && r.config.mainScript in argv[1..])
    ensures r.Run? ==> r.config.dataPath == prefPath || (|argv| > 0 && r.config.dataPath.Some? && r.config.dataPath.value in argv[1..])
  {
    var args := if |argv| == 0 then [] else argv[1..];
    match ScanArgs(args, Unset)
    case Help => ShowHelp
    case MissingValue => ValueMissing
    case Scanned(st) =>
      Run(Config(OrElse(st.game, "game.zip"), OrElse(st.config, "config.lua"), OrElse(st.main, "main.lua"),
                 if st.data.Some? then st.data else prefPath, st.pool, 30))
  }

  /** Scanning more words carries on from where a finished scan stopped; help and a missing value are final. */
  lemma {:induction false} ScanAppend(args: seq<string>, more: seq<string>, st: Settings)
    ensures ScanArgs(args, st).Scanned? ==> ScanArgs(args + more, st) == ScanArgs(more, ScanArgs(args, st).settings)
    ensures ScanArgs(args, st).Help? ==> ScanArgs(args + more, st).Help?
    decreases |args|
  {
    if |args| > 0 {
      var a := args[0];
      assert (args + more)[0] == a;
      assert (args + more)[1..] == args[1..] + more;
      if CharAt(a, 0) != '-' {
        ScanAppend(args[1..], more, st.(game := Some(a)));
      } else if CharAt(a, 1) == 'h' {
      } else if TakesValue(CharAt(a, 1)) {
        if |args| >= 2 {
          assert (args + more)[1] == args[1];
          assert (args + more)[2..] == args[2..] + more;
          ScanAppend(args[2..], more, Apply(st, CharAt(a, 1), args[1]));
        }
      } else {
        ScanAppend(args[1..], more, st);
      }
    } else {
      assert args + more == more;
    }
  }

  /** With no arguments every default applies. */
  lemma ParseDefaults(prog: string, prefPath: Option<string>)
    ensures ParseArgs([prog], prefPath) == Run(Config("game.zip", "config.lua", "main.lua", prefPath, 0, 30))
  {
    assert [prog][1..] == [];
  }

  /** Of several game paths the last one wins: a positional word after a finished parse replaces the game path. */
  lemma LastPositionalWins(argv: seq<string>, game: string, prefPath: Option<string>)
    requires |argv| > 0 && ParseArgs(argv, prefPath).Run?
    requires CharAt(game, 0) != '-'
    ensures ParseArgs(argv + [game], prefPath) == Run(ParseArgs(argv, prefPath).config.(gamePath := game))
  {
    assert (argv + [game])[1..] == argv[1..] + [game];
    ScanAppend(argv[1..], [game], Unset);
    assert [game][1..] == [];
  }

  /** An option letter takes the following word as its value, even one that starts with `-`. */
  lemma OptionTakesNextWord(opt: char, value: string, rest: seq<string>, st: Settings)
    requires TakesValue(opt)
    ensures ScanArgs([['-', opt]] + [value] + rest, st) == ScanArgs(rest, Apply(st, opt, value))
  {
    assert ([['-', opt]] + [value] + rest)[2..] == rest;
  }

  /** A word starting with `-` whose second character is not an option letter is skipped. */
  lemma UnknownOptionSkipped(a: string, rest: seq<string>, st: Settings)
    requires |a| >= 1 && a[0] == '-'
    requires CharAt(a, 1) != 'h' && !TakesValue(CharAt(a, 1))
    ensures ScanArgs([a] + rest, st) == ScanArgs(rest, st)
  {
    assert ([a] + rest)[1..] == rest;
  }

  /** `--config x.lua` does not set the configuration script: `x.lua` becomes the game path. */
  lemma DoubleDashIsNotAnOption(prog: string, prefPath: Option<string>)
    ensures ParseArgs([prog, "--config", "x.lua"], prefPath)
      == Run(Config("x.lua", "config.lua", "main.lua", prefPath, 0, 30))
  {
    var args := [prog, "--config", "x.lua"][1..];
    assert args == ["--config", "x.lua"];
    assert CharAt("--config", 0) == '-' && CharAt("--config", 1) == '-';
    assert CharAt("x.lua", 0) == 'x';
    assert ScanArgs(args, Unset) == ScanArgs(["x.lua"], Unset) by {
      assert args[1..] == ["x.lua"];
    }
    assert ScanArgs(["x.lua"], Unset) == Scanned(Unset.(game := Some("x.lua"))) by {
      assert ["x.lua"][1..] == [];
    }
  }

  /** An option letter as the last word leaves its value missing. */
  lemma TrailingOptionMissesValue(argv: seq<string>, opt: char, prefPath: Option<string>)
    requires |argv| > 0 && ParseArgs(argv, prefPath).Run?
    requires TakesValue(opt)
    ensures ParseArgs(argv + [['-', opt]], prefPath) == ValueMissing
  {
    assert (argv + [['-', opt]])[1..] == argv[1..] + [['-', opt]];
    ScanAppend(argv[1..], [['-', opt]], Unset);
  }

  /** `-h` anywhere after a finished parse shows the usage instead of running. */
  lemma HelpWins(argv: seq<string>, rest: seq<string>, prefPath: Option<string>)
    requires |argv| > 0 && ParseArgs(argv, prefPath).Run?
    ensures ParseArgs(argv + ["-h"] + rest, prefPath) == ShowHelp
  {
    assert (argv + ["-h"] + rest)[1..] == argv[1..] + (["-h"] + rest);
    ScanAppend(argv[1..], ["-h"] + rest, Unset);
  }

  /** The pool size given with `-p` is read with `SDL_atoi`. */
  lemma PoolSizeFromOption(prog: string, n: int, prefPath: Option<string>)
    ensures ParseArgs([prog, "-p", Numerals.Decimal(n)], prefPath)
      == Run(Config("game.zip", "config.lua", "main.lua", prefPath, n, 30))
  {
    AtoiDecimal(n, "");
    var d := Numerals.Decimal(n);
    assert d + "" == d;
    var args := [prog, "-p", d][1..];
    assert args == ["-p", d];
    assert CharAt("-p", 0) == '-' && CharAt("-p", 1) == 'p';
    assert ScanArgs(args, Unset) == Scanned(Unset.(pool := n)) by {
      assert args[2..] == [];
    }
  }
}
