/** File names of migrations: what `sqlx migrate add` creates and what `resolve_blocking` reads back. */
module MigrationFiles {
  import opened Basics
  import opened Decimal
  import opened Migrations

  const I64_MAX: int := 0x7FFF_FFFF_FFFF_FFFF

  // ------------------------------------------------------------------ text

  predicate EndsWith(s: string, t: string) {
    |t| <= |s| && s[|s| - |t|..] == t
  }

  function Replace(s: string, a: char, b: char): (r: string)
    ensures |r| == |s| && forall i :: 0 <= i < |s| ==> r[i] == if s[i] == a then b else s[i]
  {
    seq(|s|, i requires 0 <= i < |s| => if s[i] == a then b else s[i])
  }

  /** `str::trim_end_matches`: removes the suffix as often as it is there. */
  function TrimEnd(s: string, t: string): (r: string)
    requires t != []
    ensures |r| <= |s|
    ensures r == s <==> !EndsWith(s, t)
  {
    if EndsWith(s, t) then TrimEnd(s[..|s| - |t|], t) else s
  }

  function IndexOf(s: string, c: char): (i: int)
    ensures -1 <= i < |s|
    ensures i >= 0 ==> s[i] == c && c !in s[..i]
    ensures i < 0 ==> c !in s
  {
    if s == [] then -1
    else if s[0] == c then 0
    else
      var i := IndexOf(s[1..], c);
      if i < 0 then -1 else i + 1
  }

  predicate AllDigits(s: string) {
    s != [] && forall i :: 0 <= i < |s| ==> IsDigit(s[i])
  }

  /** `str::parse::<i64>` */
  function ParseI64(s: string): Option<int> {
    var signed := s != [] && (s[0] == '-' || s[0] == '+');
    var digits := if signed then s[1..] else s;
    if !AllDigits(digits) then None
    else
      var n: int := Value(digits);
      var v := if signed && s[0] == '-' then -n else n;
      if -I64_MAX - 1 <= v <= I64_MAX then Some(v) else None
  }

  function Missing4(used: nat): nat {
    if used < 4 then 4 - used else 0
  }

  /** `{version:04}` */
  function Pad4(v: int): string {
    if v < 0 then "-" + (Zeros(Missing4(1 + |ToText(-v)|)) + ToText(-v))
    else Zeros(Missing4(|ToText(v)|)) + ToText(v)
  }

  lemma DigitsValue(k: nat, n: nat)
    ensures AllDigits(Zeros(k) + ToText(n)) && Value(Zeros(k) + ToText(n)) == n
    ensures '_' !in Zeros(k) + ToText(n) && IsDigit((Zeros(k) + ToText(n))[0])
  {
    ValueOfText(k, n);
    var s := Zeros(k) + ToText(n);
    forall i | 0 <= i < |s| ensures IsDigit(s[i]) {
      assert i < k ==> s[i] == '0';
    }
  }

  lemma ParseUnsigned(digits: string)
    requires AllDigits(digits) && Value(digits) <= I64_MAX
    ensures ParseI64(digits) == Some(Value(digits))
  {
    assert IsDigit(digits[0]);
  }

  lemma ParseNegative(digits: string)
    requires AllDigits(digits) && Value(digits) <= I64_MAX + 1
    ensures ParseI64("-" + digits) == Some(-(Value(digits) as int))
  {
    var s := "-" + digits;
    assert s[0] == '-' && s[1..] == digits;
  }

  lemma PositiveText(digits: string, n: nat)
    requires AllDigits(digits) && '_' !in digits && Value(digits) == n <= I64_MAX
    ensures ParseI64(digits) == Some(n)
  {
    ParseUnsigned(digits);
  }

  lemma NegativeText(digits: string, n: nat)
    requires AllDigits(digits) && '_' !in digits && Value(digits) == n <= I64_MAX + 1
    ensures ParseI64("-" + digits) == Some(-(n as int)) && '_' !in "-" + digits
  {
    ParseNegative(digits);
  }

  /** The prefix of a sequential file name is read back as its version. */
  lemma PadParses(v: int)
    requires -I64_MAX - 1 <= v <= I64_MAX
    ensures ParseI64(Pad4(v)) == Some(v) && '_' !in Pad4(v)
  {
    if v < 0 {
      var k := Missing4(1 + |ToText(-v)|);
      DigitsValue(k, -v);
      NegativeText(Zeros(k) + ToText(-v), -v);
    } else {
      var k := Missing4(|ToText(v)|);
      DigitsValue(k, v);
      PositiveText(Zeros(k) + ToText(v), v);
    }
  }

  /** At least four characters, and zeros in front only to get there. */
  lemma PadWidth(v: int)
    ensures |Pad4(v)| >= 4
    ensures 0 <= v && |ToText(v)| >= 4 ==> Pad4(v) == ToText(v)
    ensures 0 <= v && |ToText(v)| < 4 ==> |Pad4(v)| == 4
    ensures v < 0 && |ToText(-v)| >= 3 ==> Pad4(v) == "-" + ToText(-v)
    ensures v < 0 && |ToText(-v)| < 3 ==> |Pad4(v)| == 4 && Pad4(v)[0] == '-'
  {
    assert Zeros(0) == [];
    if v < 0 {
      assert [] + ToText(-v) == ToText(-v);
    } else {
      assert [] + ToText(v) == ToText(v);
    }
  }

  /** A number is digits with an optional sign, within 64 bits. */
  lemma ParseI64Unsigned(digits: string)
    requires AllDigits(digits)
    ensures ParseI64(digits) == (if Value(digits) <= 0x7FFF_FFFF_FFFF_FFFF then Some(Value(digits)) else None)
  {
    assert IsDigit(digits[0]);
  }

  lemma ParseI64Plus(digits: string)
    requires AllDigits(digits)
    ensures ParseI64("+" + digits) == ParseI64(digits)
  {
    assert IsDigit(digits[0]);
    assert ("+" + digits)[0] == '+' && ("+" + digits)[1..] == digits;
  }

  lemma ParseI64Minus(digits: string)
    requires AllDigits(digits)
    ensures ParseI64("-" + digits)
         == (if Value(digits) <= 0x8000_0000_0000_0000 then Some(-(Value(digits) as int)) else None)
  {
    assert ("-" + digits)[0] == '-' && ("-" + digits)[1..] == digits;
  }

  lemma ParseI64Only(s: string)
    requires ParseI64(s).Some?
    ensures AllDigits(s) || (s != [] && (s[0] == '+' || s[0] == '-') && AllDigits(s[1..]))
  {
  }

  // ------------------------------------------------------------------ names

  /** `MigrationType::suffix` */
  function Suffix(kind: Kind): (s: string)
    ensures s != []
  {
    match kind
    case Simple => ".sql"
    case ReversibleUp => ".up.sql"
    case ReversibleDown => ".down.sql"
  }

  /** `MigrationType::from_filename` */
  function FromFilename(s: string): Kind {
    if EndsWith(s, Suffix(ReversibleUp)) then ReversibleUp
    else if EndsWith(s, Suffix(ReversibleDown)) then ReversibleDown
    else Simple
  }

  datatype File = File(name: string, version: int, kind: Kind, description: string)

  datatype Parsed = Ignored | BadVersion | Parsed(file: File)

  /** The body of the loop of `resolve_blocking`. */
  function ParseName(name: string): Parsed {
    var i := IndexOf(name, '_');
    if i < 0 || !EndsWith(name[i + 1..], ".sql") then Ignored
    else
      var version := ParseI64(name[..i]);
      if version.None? then BadVersion
      else
        var kind := FromFilename(name[i + 1..]);
        Parsed(File(name, version.value, kind, Replace(TrimEnd(name[i + 1..], Suffix(kind)), '_', ' ')))
  }

  /** `create_file` */
  function CreateName(prefix: string, description: string, kind: Kind): string {
    prefix + "_" + (Replace(description, ' ', '_') + Suffix(kind))
  }

  /** The kind that a file created for `kind` is taken for: the ending of a simple description can mislead. */
  function KindRead(d: string, kind: Kind): Kind {
    if !kind.Simple? then kind
    else if EndsWith(d, ".up") then ReversibleUp
    else if EndsWith(d, ".down") then ReversibleDown
    else Simple
  }

  predicate KindRecoverable(d: string, kind: Kind) {
    KindRead(d, kind) == kind
  }

  /**
   * How any file name is read. Without an underscore, or without the ending `.sql`, it is no migration's;
   * otherwise what stands before the first underscore must be a number.
   */
  lemma NameIsRead(prefix: string, rest: string)
    requires '_' !in prefix
    ensures ParseName(prefix) == Ignored
    ensures var name := prefix + "_" + rest;
            && (ParseName(name) == Ignored <==> !EndsWith(rest, ".sql"))
            && (ParseName(name) == BadVersion <==> EndsWith(rest, ".sql") && ParseI64(prefix).None?)
            && (ParseName(name).Parsed? ==>
                  var f := ParseName(name).file;
                  && f.name == name && ParseI64(prefix) == Some(f.version)
                  && (f.kind == ReversibleUp <==> EndsWith(rest, ".up.sql"))
                  && (f.kind == ReversibleDown ==> EndsWith(rest, ".down.sql"))
                  && (f.kind == Simple ==> !EndsWith(rest, ".down.sql")))
  {
    SplitName(prefix, rest);
    NoUnderscore(prefix);
  }

  lemma {:induction false} NoUnderscore(s: string)
    requires '_' !in s
    ensures IndexOf(s, '_') < 0
  {
    if s != [] {
      NoUnderscore(s[1..]);
    }
  }

  function Repeated(t: string, k: nat): string {
    if k == 0 then "" else Repeated(t, k - 1) + t
  }

  lemma OneMore(s: string, t: string, k: nat)
    ensures s + Repeated(t, k) + t == s + Repeated(t, k + 1)
  {
  }

  /** Trimming takes the suffix off as often as it is there, and nothing else. */
  lemma {:induction false} TrimEndIs(s: string, t: string) returns (k: nat)
    requires t != []
    ensures s == TrimEnd(s, t) + Repeated(t, k) && !EndsWith(TrimEnd(s, t), t)
    decreases |s|
  {
    k := 0;
    if EndsWith(s, t) {
      var front := s[..|s| - |t|];
      var j := TrimEndIs(front, t);
      k := j + 1;
      OneMore(TrimEnd(front, t), t, j);
      assert s == front + t;
    } else {
      assert s + "" == s;
    }
  }

  /** What a caller can check about a description before creating the file. */
  predicate Recoverable(d: string, kind: Kind) {
    '_' !in d && !EndsWith(d, Suffix(kind)) && KindRecoverable(d, kind)
  }

  lemma EndsWithConcat(s: string, t: string, u: string)
    ensures EndsWith(s + u, t + u) <==> EndsWith(s, t)
  {
    if |t| <= |s| {
      assert (s + u)[|s| - |t|..] == s[|s| - |t|..] + u;
      assert (t + u)[..|t|] == t;
      assert (s[|s| - |t|..] + u)[..|t|] == s[|s| - |t|..];
    }
  }

  lemma EndsWithReplace(d: string, t: string)
    requires ' ' !in t && '_' !in t
    ensures EndsWith(Replace(d, ' ', '_'), t) <==> EndsWith(d, t)
  {
    if |t| <= |d| {
      var k := |d| - |t|;
      var r := Replace(d, ' ', '_');
      assert forall i :: 0 <= i < |t| ==> r[k..][i] == r[k + i] && d[k..][i] == d[k + i];
      if r[k..] == t {
        assert forall i :: 0 <= i < |t| ==> t[i] == r[k + i] && t[i] in t && d[k + i] == t[i];
        assert d[k..] == t;
      }
      if d[k..] == t {
        assert forall i :: 0 <= i < |t| ==> t[i] == d[k + i] && t[i] in t && r[k + i] == t[i];
        assert r[k..] == t;
      }
    }
  }

  lemma SimpleReadBack(body: string)
    ensures FromFilename(body + ".sql") == KindRead(body, Simple)
  {
    assert ".up" + ".sql" == ".up.sql" && ".down" + ".sql" == ".down.sql";
    EndsWithConcat(body, ".up", ".sql");
    EndsWithConcat(body, ".down", ".sql");
  }

  lemma UpReadBack(body: string)
    ensures FromFilename(body + ".up.sql") == ReversibleUp
  {
    var s := body + ".up.sql";
    assert s[|s| - 7..] == ".up.sql";
  }

  lemma DownReadBack(body: string)
    ensures FromFilename(body + ".down.sql") == ReversibleDown
  {
    var s := body + ".down.sql";
    assert s[|s| - 9..] == ".down.sql";
    assert s[|s| - 7..][0] == s[|s| - 9..][2] == 'o';
  }

  lemma KindReadBack(body: string, kind: Kind)
    ensures FromFilename(body + Suffix(kind)) == KindRead(body, kind)
  {
    match kind
    case Simple => SimpleReadBack(body);
    case ReversibleUp => UpReadBack(body);
    case ReversibleDown => DownReadBack(body);
  }

  lemma TrimSuffix(body: string, t: string)
    requires t != []
    ensures TrimEnd(body + t, t) == TrimEnd(body, t)
  {
    assert (body + t)[|body|..] == t && (body + t)[..|body|] == body;
  }

  lemma {:induction false} SplitName(prefix: string, rest: string)
    requires '_' !in prefix
    ensures IndexOf(prefix + "_" + rest, '_') == |prefix|
    ensures (prefix + "_" + rest)[|prefix| + 1..] == rest && (prefix + "_" + rest)[..|prefix|] == prefix
    decreases |prefix|
  {
    var name := prefix + "_" + rest;
    if prefix != [] {
      assert name[0] == prefix[0];
      assert name[1..] == prefix[1..] + "_" + rest;
      SplitName(prefix[1..], rest);
    }
  }

  /** What is read back from a created name, before asking whether it is what went in. */
  lemma ParseCreated(prefix: string, version: int, d: string, kind: Kind)
    requires '_' !in prefix && ParseI64(prefix) == Some(version)
    ensures var name := CreateName(prefix, d, kind);
            var rest := Replace(d, ' ', '_') + Suffix(kind);
            var k := FromFilename(rest);
            ParseName(name) == Parsed(File(name, version, k, Replace(TrimEnd(rest, Suffix(k)), '_', ' ')))
  {
    EndsInSql(Replace(d, ' ', '_'), kind);
    ParseSplit(prefix, version, Replace(d, ' ', '_') + Suffix(kind));
  }

  lemma EndsInSql(body: string, kind: Kind)
    ensures EndsWith(body + Suffix(kind), ".sql")
  {
    assert ".up" + ".sql" == ".up.sql" && ".down" + ".sql" == ".down.sql" && "" + ".sql" == ".sql";
    var front := if kind.Simple? then "" else if kind.ReversibleUp? then ".up" else ".down";
    assert Suffix(kind) == front + ".sql";
    var s := body + Suffix(kind);
    assert s == (body + front) + ".sql";
  }

  lemma ParseSplit(prefix: string, version: int, rest: string)
    requires '_' !in prefix && ParseI64(prefix) == Some(version) && EndsWith(rest, ".sql")
    ensures var k := FromFilename(rest);
            var name := prefix + "_" + rest;
            ParseName(name) == Parsed(File(name, version, k, Replace(TrimEnd(rest, Suffix(k)), '_', ' ')))
  {
    SplitName(prefix, rest);
  }

  /** Whatever the description, the version is read back, and it is known as which kind. */
  lemma VersionAndKindReadBack(prefix: string, version: int, d: string, kind: Kind)
    requires '_' !in prefix && ParseI64(prefix) == Some(version)
    ensures var name := CreateName(prefix, d, kind);
            && ParseName(name).Parsed?
            && ParseName(name).file.name == name
            && ParseName(name).file.version == version
            && ParseName(name).file.kind == KindRead(d, kind)
  {
    ParseCreated(prefix, version, d, kind);
    KindReadBack(Replace(d, ' ', '_'), kind);
    ReadableEndings(d, kind);
  }

  /**
   * A created file name parses back to the same version, kind and description if and only if the
   * description has no underscore and no ending that collides with the suffix of a migration.
   */
  lemma RoundTripIff(prefix: string, version: int, d: string, kind: Kind)
    requires '_' !in prefix && ParseI64(prefix) == Some(version)
    ensures var name := CreateName(prefix, d, kind);
            ParseName(name) == Parsed(File(name, version, kind, d)) <==> Recoverable(d, kind)
  {
    ParseCreated(prefix, version, d, kind);
    var body := Replace(d, ' ', '_');
    KindReadBack(body, kind);
    TrimSuffix(body, Suffix(kind));
    ReadableEndings(d, kind);
    if EndsWith(body, Suffix(kind)) {
      TrimShortens(body, Suffix(kind));
    } else {
      ReplaceBack(d);
    }
  }

  /** Replacing spaces does not make or break an ending. */
  lemma ReadableEndings(d: string, kind: Kind)
    ensures var body := Replace(d, ' ', '_');
            && (EndsWith(body, ".up") <==> EndsWith(d, ".up"))
            && (EndsWith(body, ".down") <==> EndsWith(d, ".down"))
            && (EndsWith(body, Suffix(kind)) <==> EndsWith(d, Suffix(kind)))
  {
    EndsWithReplace(d, ".up");
    EndsWithReplace(d, ".down");
    EndsWithReplace(d, Suffix(kind));
  }

  /** No description ends both ways. */
  lemma ReadAsDown(d: string)
    ensures KindRead(d, Simple).ReversibleDown? <==> EndsWith(d, ".down")
  {
    assert |d| >= 5 ==> d[|d| - 3..][2] == d[|d| - 5..][4];
  }

  /** A created name gives away its prefix. */
  lemma SamePrefix(p: string, q: string, d: string, e: string, j: Kind, k: Kind)
    requires '_' !in p && '_' !in q && CreateName(p, d, j) == CreateName(q, e, k)
    ensures p == q
  {
    SplitName(p, Replace(d, ' ', '_') + Suffix(j));
    SplitName(q, Replace(e, ' ', '_') + Suffix(k));
  }

  lemma TrimShortens(s: string, t: string)
    requires t != [] && EndsWith(s, t)
    ensures |TrimEnd(s, t)| < |s|
  {
  }

  lemma ReplaceBack(d: string)
    ensures Replace(Replace(d, ' ', '_'), '_', ' ') == d <==> '_' !in d
  {
    var back := Replace(Replace(d, ' ', '_'), '_', ' ');
    if '_' in d {
      var i :| 0 <= i < |d| && d[i] == '_';
      assert back[i] == ' ';
    }
  }
}
