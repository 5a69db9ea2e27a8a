/** The uploader's command-line check: `IP_PATTERN` and `validate_args`. */
module Arguments {
  import opened Text
  import opened FileSystem

  /** `ARGS_LEN`: the script name, the server address and the website folder. */
  const ArgsLen := 3

  /** One alternative of the octet group
      `1[0-9]{2} | 2[0-4][0-9] | 25[0-5] | [0-9]{1,2}` matches all of `f`. */
  predicate IsOctet(f: string)
  {
    || (|f| == 3 && f[0] == '1' && IsDigit(f[1]) && IsDigit(f[2]))
    || (|f| == 3 && f[0] == '2' && '0' <= f[1] <= '4' && IsDigit(f[2]))
    || (|f| == 3 && f[0] == '2' && f[1] == '5' && '0' <= f[2] <= '5')
    || ((|f| == 1 || |f| == 2) && AllDigits(f))
  }

  /** What `$` lets the match stop at: the end of the string, or just before one newline
      that ends it. */
  function Body(s: string): string
  {
    if s != [] && s[|s| - 1] == '\n' then s[..|s| - 1] else s
  }

  /** `re.match(IP_PATTERN, s) != None`. The octet group holds only digits and the
      separator is a literal `.`, so the match succeeds exactly when the text before the
      anchor is four `.`-separated fields that each match the group. */
  predicate MatchesIpPattern(s: string)
  {
    var fields := Split(Body(s), '.');
    |fields| == 4 && forall i :: 0 <= i < 4 ==> IsOctet(fields[i])
  }

  lemma DigitsValue3(f: string)
    requires |f| == 3 && AllDigits(f)
    ensures DigitsValue(f) == 100 * (f[0] as int - '0' as int) + 10 * (f[1] as int - '0' as int)
                              + (f[2] as int - '0' as int)
  {
    assert f[..2][..1] == f[..1];
    assert f[..1][..0] == [];
    assert DigitsValue(f[..1]) == f[0] as int - '0' as int;
    assert DigitsValue(f[..2]) == DigitsValue(f[..1]) * 10 + (f[1] as int - '0' as int);
  }

  /** The octet group accepts exactly the numerals of 0..255 written with one to three
      digits, where a three-digit numeral may not start with `0`: so `05` and `00` pass,
      `001` and `256` do not. */
  lemma OctetIff(f: string)
    ensures IsOctet(f) <==>
              1 <= |f| <= 3 && AllDigits(f) && DigitsValue(f) <= 255 && (|f| == 3 ==> f[0] != '0')
  {
    if |f| == 3 && AllDigits(f) {
      DigitsValue3(f);
    } else if |f| == 2 && AllDigits(f) {
      assert f[..1][..0] == [];
      assert DigitsValue(f[..1]) == f[0] as int - '0' as int;
      assert DigitsValue(f) == DigitsValue(f[..1]) * 10 + (f[1] as int - '0' as int);
    } else if |f| == 1 && AllDigits(f) {
      assert f[..0] == [];
    }
  }

  lemma OctetExamples()
    ensures IsOctet("05") && IsOctet("00") && IsOctet("255") && IsOctet("0")
    ensures !IsOctet("001") && !IsOctet("256") && !IsOctet("") && !IsOctet("1000")
  {
  }

  /** Every four octets joined by dots are accepted, with or without one trailing newline. */
  lemma {:induction false} IpAccepted(fields: seq<string>, newline: bool)
    requires |fields| == 4 && forall i :: 0 <= i < 4 ==> IsOctet(fields[i])
    ensures MatchesIpPattern(Join(fields, '.') + (if newline then "\n" else ""))
  {
    forall i | 0 <= i < 4 ensures '.' !in fields[i] {
      OctetIff(fields[i]);
    }
    var j := Join(fields, '.');
    var s := j + (if newline then "\n" else "");
    NoNewlineInJoin(fields);
    assert Body(s) == j by {
      if newline {
        assert s[..|s| - 1] == j;
      } else if j != [] {
        assert s[|s| - 1] == j[|j| - 1];
      }
    }
    SplitJoin(fields, '.');
  }

  lemma {:induction false} NoNewlineInJoin(fields: seq<string>)
    requires 1 <= |fields| && forall i :: 0 <= i < |fields| ==> IsOctet(fields[i])
    ensures '\n' !in Join(fields, '.')
  {
    OctetIff(fields[0]);
    if |fields| > 1 {
      NoNewlineInJoin(fields[1..]);
    }
  }

  /** Conversely, an accepted string is four octets joined by dots, possibly followed by
      one newline; each octet denotes a number in 0..255. */
  lemma IpShape(s: string)
    requires MatchesIpPattern(s)
    ensures var fields := Split(Body(s), '.');
            (s == Join(fields, '.') || s == Join(fields, '.') + "\n")
            && forall i :: 0 <= i < 4 ==> AllDigits(fields[i]) && DigitsValue(fields[i]) <= 255
  {
    var fields := Split(Body(s), '.');
    JoinSplit(Body(s), '.');
    forall i | 0 <= i < 4 ensures AllDigits(fields[i]) && DigitsValue(fields[i]) <= 255 {
      OctetIff(fields[i]);
    }
    if s != [] && s[|s| - 1] == '\n' {
      assert s == s[..|s| - 1] + "\n";
    }
  }

  lemma IpAcceptedExamples()
    ensures MatchesIpPattern("172.160.14.0")
    ensures MatchesIpPattern("1.2.3.4\n")
  {
    AcceptedPlain();
    AcceptedNewline();
  }

  lemma AcceptedPlain()
    ensures MatchesIpPattern("172.160.14.0")
  {
    IpAccepted(["172", "160", "14", "0"], false);
    assert Join(["172", "160", "14", "0"], '.') + "" == "172.160.14.0";
  }

  lemma AcceptedNewline()
    ensures MatchesIpPattern("1.2.3.4\n")
  {
    IpAccepted(["1", "2", "3", "4"], true);
    assert Join(["1", "2", "3", "4"], '.') + "\n" == "1.2.3.4\n";
  }

  lemma IpRejectedExamples()
    ensures !MatchesIpPattern("1.2.3")
    ensures !MatchesIpPattern("256.1.1.1")
    ensures !MatchesIpPattern("1.2.3.4.5")
  {
    RejectedShort();
    RejectedHigh();
    RejectedLong();
  }

  lemma RejectedShort()
    ensures !MatchesIpPattern("1.2.3")
  {
    assert Body("1.2.3") == Join(["1", "2", "3"], '.');
    SplitJoin(["1", "2", "3"], '.');
  }

  lemma RejectedHigh()
    ensures !MatchesIpPattern("256.1.1.1")
  {
    assert Body("256.1.1.1") == Join(["256", "1", "1", "1"], '.');
    SplitJoin(["256", "1", "1", "1"], '.');
  }

  lemma RejectedLong()
    ensures !MatchesIpPattern("1.2.3.4.5")
  {
    assert Body("1.2.3.4.5") == Join(["1", "2", "3", "4", "5"], '.');
    SplitJoin(["1", "2", "3", "4", "5"], '.');
  }

  /** Why `validate_args` refused, or that it accepted. */
  datatype ArgsCheck = Accepted | WrongArgCount | InvalidIp | FolderMissing | NotAFolder

  /** `validate_args()` with `sys.argv` as `argv` (True is `Accepted`). The checks run in
      this order and the first that fails decides the result. */
  function ValidateArgs(argv: seq<string>, v: Volume): (r: ArgsCheck)
    ensures r == Accepted <==>
              |argv| == ArgsLen && MatchesIpPattern(argv[1]) && IsDir(v, argv[2])
    ensures |argv| != ArgsLen ==> r == WrongArgCount
    ensures r == InvalidIp <==> |argv| == ArgsLen && !MatchesIpPattern(argv[1])
    ensures r == FolderMissing <==>
              |argv| == ArgsLen && MatchesIpPattern(argv[1]) && !Exists(v, argv[2])
    ensures r == NotAFolder ==> Exists(v, argv[2]) && !IsDir(v, argv[2])
  {
    if |argv| != ArgsLen then WrongArgCount
    else if !MatchesIpPattern(argv[1]) then InvalidIp
    else if !Exists(v, argv[2]) then FolderMissing
    else if !IsDir(v, argv[2]) then NotAFolder
    else Accepted
  }
}
