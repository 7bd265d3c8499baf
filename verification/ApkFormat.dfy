/**
 What an APKINDEX text means, stated without the parser: the lines are split into records
 at blank lines, and each record yields entries from the last value of each field.
 */
module ApkFormat {
  import opened Core

  /** One version of a package under one architecture. */
  datatype PackageVersion = PackageVersion(version: string, timestamp: Time, arch: string)

  /** A package version together with the name it is filed under. */
  datatype Entry = Entry(name: string, item: PackageVersion)

  type Index = map<string, seq<PackageVersion>>

  const MIN_JSON_UNIX_SEC := -62135596800
  const MAX_JSON_UNIX_SEC := 253402300799
  const NANOS := 1_000_000_000
  const MAX_INT64 := 0x7fff_ffff_ffff_ffff

  // ---------- the `t:` field ----------

  predicate IsDigit(c: char) { '0' <= c <= '9' }

  function DigitsValue(s: string): nat
    requires forall c :: c in s ==> IsDigit(c)
  {
    if s == [] then 0
    else
      assert IsDigit(s[|s| - 1]);
      10 * DigitsValue(s[..|s| - 1]) + (s[|s| - 1] as int - '0' as int)
  }

  /** `strconv.ParseInt(s, 10, 64)`; `None` stands for either of its errors. */
  function ParseInt64(s: string): Option<int> {
    var digits := if s != [] && (s[0] == '+' || s[0] == '-') then s[1..] else s;
    if digits == [] || exists c :: c in digits && !IsDigit(c) then None
    else
      var n: int := DigitsValue(digits);
      if s[0] == '-' then (if n <= MAX_INT64 + 1 then Some(-n) else None)
      else if n <= MAX_INT64 then Some(n) else None
  }

  /** The instant a `t:` value denotes, when it denotes one. */
  function ParseTimestamp(val: string): Option<Time> {
    match ParseInt64(val)
    case Some(secs) =>
      if secs != 0 && MIN_JSON_UNIX_SEC <= secs <= MAX_JSON_UNIX_SEC
      then Some((secs - MIN_JSON_UNIX_SEC) * NANOS) else None
    case None => None
  }

  /** Zero, or a whole second within the years 0001..9999. */
  predicate ValidTimestamp(t: Time) {
    0 <= t <= (MAX_JSON_UNIX_SEC - MIN_JSON_UNIX_SEC) * NANOS && t % NANOS == 0
  }

  /** The canonical decimal text of a natural number. */
  function DecimalNat(n: nat): (s: string)
    ensures s != [] && forall c :: c in s ==> IsDigit(c)
  {
    var d := [('0' as int + n % 10) as char];
    if n < 10 then d else DecimalNat(n / 10) + d
  }

  function Decimal(n: int): string {
    if n < 0 then "-" + DecimalNat(-n) else DecimalNat(n)
  }

  lemma {:induction false} DecimalNatValue(n: nat)
    ensures DigitsValue(DecimalNat(n)) == n
  {
    var s := DecimalNat(n);
    if n < 10 {
      assert s[..|s| - 1] == [];
    } else {
      DecimalNatValue(n / 10);
      assert s[..|s| - 1] == DecimalNat(n / 10);
    }
  }

  /** Every integer's text parses back to it, unless it overflows int64. */
  lemma ParseInt64RoundTrip(n: int)
    ensures ParseInt64(Decimal(n)) == if -MAX_INT64 - 1 <= n <= MAX_INT64 then Some(n) else None
  {
    var s := Decimal(n);
    DecimalNatValue(if n < 0 then -n else n);
    if n < 0 {
      assert s[1..] == DecimalNat(-n);
    } else {
      assert IsDigit(s[0]);
    }
  }

  predicate AllDigits(s: string) { s != "" && forall c :: c in s ==> IsDigit(c) }

  /** `val` is digits, with or without a sign, that write the number `n`. */
  ghost predicate Spells(val: string, n: int) {
    || (AllDigits(val) && n == DigitsValue(val))
    || exists digits :: AllDigits(digits)
         && ((val == "+" + digits && n == DigitsValue(digits)) || (val == "-" + digits && -n == DigitsValue(digits)))
  }

  /** Whatever the text, it parses to `n` exactly when it spells `n` and `n` fits an int64. */
  lemma ParseInt64Meaning(val: string, n: int)
    ensures ParseInt64(val) == Some(n) <==> Spells(val, n) && -MAX_INT64 - 1 <= n <= MAX_INT64
  {
    if val != "" {
      assert val == [val[0]] + val[1..];
      assert AllDigits(val) ==> IsDigit(val[0]);
      if digits :| AllDigits(digits) && (val == "+" + digits || val == "-" + digits) {
        assert digits == val[1..];
      }
    }
  }

  function Pow10(n: nat): nat { if n == 0 then 1 else 10 * Pow10(n - 1) }

  /** Decimal notation: a digit in front counts for its value at its place. */
  lemma {:induction false} DigitsPositional(c: char, s: string)
    requires IsDigit(c) && forall d :: d in s ==> IsDigit(d)
    ensures forall d :: d in [c] + s ==> IsDigit(d)
    ensures DigitsValue([c] + s) == (c as int - '0' as int) * Pow10(|s|) + DigitsValue(s)
  {
    if s == [] {
      assert [c] + s == [c] && [c][..0] == [];
    } else {
      var init, last := s[..|s| - 1], s[|s| - 1];
      DigitsPositional(c, init);
      assert ([c] + s)[..|s|] == [c] + init;
      TenTimes(c as int - '0' as int, Pow10(|init|));
    }
  }

  lemma TenTimes(d: int, p: int)
    ensures d * (10 * p) == 10 * (d * p)
  {
  }

  predicate AcceptedSeconds(n: int) { n != 0 && -62135596800 <= n <= 253402300799 }

  /**
   Whatever its value, a `t:` line denotes an instant exactly when it spells a non-zero second
   of the years 0001..9999, and then it denotes that second.
   */
  lemma TimestampAccepted(val: string)
    ensures ParseTimestamp(val).Some? <==> exists n :: Spells(val, n) && AcceptedSeconds(n)
    ensures forall n :: Spells(val, n) && AcceptedSeconds(n) ==>
      ParseTimestamp(val) == Some((n + 62135596800) * 1_000_000_000)
  {
    forall n ensures ParseInt64(val) == Some(n) <==> Spells(val, n) && -MAX_INT64 - 1 <= n <= MAX_INT64 {
      ParseInt64Meaning(val, n);
    }
  }

  /** Every accepted second has a text that denotes it. */
  lemma DecimalTimestamp(n: int)
    requires AcceptedSeconds(n)
    ensures ParseTimestamp(Decimal(n)) == Some((n - MIN_JSON_UNIX_SEC) * NANOS)
  {
    ParseInt64RoundTrip(n);
  }

  lemma TimestampRange(val: string)
    ensures ParseTimestamp(val).Some? ==> ValidTimestamp(ParseTimestamp(val).value)
  {
  }

  // ---------- records ----------

  predicate IsField(line: string, key: char) {
    |line| >= 2 && line[1] == ':' && line[0] == key
  }

  /** A blank line starts a new record; any other line belongs to the last one. */
  function Extend(rs: seq<seq<string>>, line: string): (r: seq<seq<string>>)
    requires rs != []
    ensures r != []
  {
    if line == "" then rs + [[]] else rs[..|rs| - 1] + [rs[|rs| - 1] + [line]]
  }

  /** Split at blank lines; the last record may be empty. */
  function Records(lines: seq<string>): (r: seq<seq<string>>)
    ensures r != []
  {
    if lines == [] then [[]] else Extend(Records(lines[..|lines| - 1]), lines[|lines| - 1])
  }

  function JoinRecords(rs: seq<seq<string>>): seq<string>
    requires rs != []
  {
    if |rs| == 1 then rs[0] else JoinRecords(rs[..|rs| - 1]) + [""] + rs[|rs| - 1]
  }

  lemma JoinExtend(rs: seq<seq<string>>, line: string)
    requires rs != []
    ensures JoinRecords(Extend(rs, line)) == JoinRecords(rs) + [line]
  {
    var r := Extend(rs, line);
    if line == "" {
      assert r[..|r| - 1] == rs;
    } else {
      assert r[..|r| - 1] == rs[..|rs| - 1];
    }
  }

  ghost predicate NoBlankLines(rs: seq<seq<string>>) {
    forall i :: 0 <= i < |rs| ==> "" !in rs[i]
  }

  /** Splitting loses nothing and leaves no blank line inside a record. */
  lemma {:induction false} RecordsJoin(lines: seq<string>)
    ensures JoinRecords(Records(lines)) == lines && NoBlankLines(Records(lines))
  {
    if lines != [] {
      var init, line := lines[..|lines| - 1], lines[|lines| - 1];
      RecordsJoin(init);
      JoinExtend(Records(init), line);
      assert lines == init + [line];
    }
  }

  lemma ExtendConcat(a: seq<seq<string>>, b: seq<seq<string>>, line: string)
    requires b != []
    ensures Extend(a + b, line) == a + Extend(b, line)
  {
    assert (a + b)[..|a + b| - 1] == a + b[..|b| - 1];
  }

  lemma RecordsSnoc(lines: seq<string>, line: string)
    ensures Records(lines + [line]) == Extend(Records(lines), line)
  {
    assert (lines + [line])[..|lines + [line]| - 1] == lines;
  }

  lemma ExtendOne(init: seq<string>, line: string)
    requires line != ""
    ensures Extend([init], line) == [init + [line]]
  {
  }

  lemma {:induction false} RecordsOfOne(lines: seq<string>)
    requires forall i :: 0 <= i < |lines| ==> lines[i] != ""
    ensures Records(lines) == [lines]
  {
    if lines != [] {
      var init, line := lines[..|lines| - 1], lines[|lines| - 1];
      RecordsOfOne(init);
      ExtendOne(init, line);
      assert lines == init + [line];
    }
  }

  lemma {:induction false} RecordsConcat(a: seq<string>, b: seq<string>)
    ensures Records(a + [""] + b) == Records(a) + Records(b)
  {
    if b == [] {
      assert a + [""] + b == a + [""];
      RecordsSnoc(a, "");
    } else {
      var init, line := b[..|b| - 1], b[|b| - 1];
      assert a + [""] + b == (a + [""] + init) + [line] && b == init + [line];
      RecordsSnoc(a + [""] + init, line);
      RecordsConcat(a, init);
      ExtendConcat(Records(a), Records(init), line);
      RecordsSnoc(init, line);
    }
  }

  function LastField(rec: seq<string>, key: char): string {
    if rec == [] then ""
    else
      var line := rec[|rec| - 1];
      if IsField(line, key) then line[2..] else LastField(rec[..|rec| - 1], key)
  }

  /** The last `t:` value that denotes an instant; zero when there is none. */
  function LastTimestamp(rec: seq<string>): Time {
    if rec == [] then 0
    else
      var line := rec[|rec| - 1];
      if IsField(line, 't') && ParseTimestamp(line[2..]).Some? then ParseTimestamp(line[2..]).value
      else LastTimestamp(rec[..|rec| - 1])
  }

  /** One more line only matters to the field it belongs to. */
  lemma FieldSnoc(rec: seq<string>, line: string, key: char)
    ensures LastField(rec + [line], key) == if IsField(line, key) then line[2..] else LastField(rec, key)
    ensures LastTimestamp(rec + [line])
         == if IsField(line, 't') && ParseTimestamp(line[2..]).Some? then ParseTimestamp(line[2..]).value else LastTimestamp(rec)
  {
    assert (rec + [line])[..|rec|] == rec;
  }

  /** Line i is the record's last one that satisfies `p`. */
  ghost predicate LastWith(rec: seq<string>, p: string -> bool, i: int) {
    0 <= i < |rec| && p(rec[i]) && forall j :: i < j < |rec| ==> !p(rec[j])
  }

  ghost predicate NoneWith(rec: seq<string>, p: string -> bool) {
    forall j :: 0 <= j < |rec| ==> !p(rec[j])
  }

  lemma {:induction false} LastFieldMeaning(rec: seq<string>, key: char)
    ensures var p := (line: string) => IsField(line, key);
      || (NoneWith(rec, p) && LastField(rec, key) == "")
      || exists i :: LastWith(rec, p, i) && LastField(rec, key) == rec[i][2..]
  {
    var p := (line: string) => IsField(line, key);
    if rec != [] {
      var init, n := rec[..|rec| - 1], |rec| - 1;
      LastFieldMeaning(init, key);
      if p(rec[n]) {
        assert LastWith(rec, p, n);
      } else if i :| LastWith(init, p, i) && LastField(init, key) == init[i][2..] {
        assert LastWith(rec, p, i);
      }
    }
  }

  predicate DatesRecord(line: string) { IsField(line, 't') && ParseTimestamp(line[2..]).Some? }

  lemma {:induction false} LastTimestampMeaning(rec: seq<string>)
    ensures || (NoneWith(rec, DatesRecord) && LastTimestamp(rec) == 0)
            || exists i :: LastWith(rec, DatesRecord, i) && LastTimestamp(rec) == ParseTimestamp(rec[i][2..]).value
  {
    if rec != [] {
      var init, line := rec[..|rec| - 1], rec[|rec| - 1];
      LastTimestampMeaning(init);
      assert rec == init + [line];
      FieldSnoc(init, line, 't');
      if DatesRecord(line) {
        assert LastWith(rec, DatesRecord, |init|);
      } else if !NoneWith(init, DatesRecord) {
        var i :| LastWith(init, DatesRecord, i) && LastTimestamp(init) == ParseTimestamp(init[i][2..]).value;
        assert LastWith(rec, DatesRecord, i);
      }
    }
  }

  lemma {:induction false} LastTimestampRange(rec: seq<string>)
    ensures ValidTimestamp(LastTimestamp(rec))
  {
    if rec != [] {
      TimestampRange(if |rec[|rec| - 1]| >= 2 then rec[|rec| - 1][2..] else "");
      LastTimestampRange(rec[..|rec| - 1]);
    }
  }

  /** A record counts as a package when it ends up with a name and a version. */
  predicate IsPackage(rec: seq<string>) {
    LastField(rec, 'P') != "" && LastField(rec, 'V') != ""
  }

  // ---------- the `p:` field ----------

  /** Go's `unicode.IsSpace`. */
  predicate IsSpace(c: char) {
    var n := c as int;
    || 9 <= n <= 13 || n == 0x20 || n == 0x85 || n == 0xA0 || n == 0x1680
    || 0x2000 <= n <= 0x200a || n == 0x2028 || n == 0x2029 || n == 0x202f || n == 0x205f || n == 0x3000
  }

  lemma SpaceCharacters(c: char)
    ensures IsSpace(c) <==>
        c as int in {0x09, 0x0A, 0x0B, 0x0C, 0x0D, 0x20, 0x85, 0xA0, 0x1680, 0x2000, 0x2001, 0x2002, 0x2003, 0x2004, 0x2005,
                     0x2006, 0x2007, 0x2008, 0x2009, 0x200A, 0x2028, 0x2029, 0x202F, 0x205F, 0x3000}
  {
  }

  function TokenLength(s: string): (k: nat)
    ensures k <= |s|
    ensures forall i :: 0 <= i < k ==> !IsSpace(s[i])
    ensures k < |s| ==> IsSpace(s[k])
  {
    if s == [] || IsSpace(s[0]) then 0 else 1 + TokenLength(s[1..])
  }

  /** `strings.Fields`: the maximal runs of characters that are not white space. */
  function Fields(s: string): (toks: seq<string>)
    ensures forall t, c :: t in toks && c in t ==> !IsSpace(c)
    ensures "" !in toks
    decreases |s|
  {
    if s == [] then []
    else if IsSpace(s[0]) then Fields(s[1..])
    else [s[..TokenLength(s)]] + Fields(s[TokenLength(s)..])
  }

  predicate IsToken(t: string) { t != "" && forall i :: 0 <= i < |t| ==> !IsSpace(t[i]) }

  function JoinTokens(toks: seq<string>): string {
    if toks == [] then "" else if |toks| == 1 then toks[0] else toks[0] + " " + JoinTokens(toks[1..])
  }

  lemma FieldsFirst(tok: string, rest: string)
    requires IsToken(tok)
    ensures Fields(tok + " " + rest) == [tok] + Fields(rest)
    ensures Fields(tok) == [tok]
  {
    TokenLengthOf(tok, " " + rest);
    TokenLengthOf(tok, "");
    assert tok + "" == tok && tok + (" " + rest) == tok + " " + rest;
    assert (tok + " " + rest)[|tok|..] == " " + rest;
    assert (" " + rest)[1..] == rest;
    assert tok[..|tok|] == tok && tok[|tok|..] == "";
    assert (tok + " " + rest)[..|tok|] == tok;
  }

  lemma {:induction false} TokenLengthOf(tok: string, rest: string)
    requires forall i :: 0 <= i < |tok| ==> !IsSpace(tok[i])
    requires rest == "" || IsSpace(rest[0])
    ensures TokenLength(tok + rest) == |tok|
  {
    if tok == "" {
      assert tok + rest == rest;
    } else {
      TokenLengthOf(tok[1..], rest);
      assert (tok + rest)[1..] == tok[1..] + rest;
    }
  }

  /** Tokens written with single spaces between them are read back. */
  lemma {:induction false} FieldsRoundTrip(toks: seq<string>)
    requires forall t :: t in toks ==> IsToken(t)
    ensures Fields(JoinTokens(toks)) == toks
  {
    if toks != [] {
      assert toks[0] in toks;
      FieldsRoundTrip(toks[1..]);
      FieldsFirst(toks[0], JoinTokens(toks[1..]));
    }
  }

  /** `tok` is a whole word of `s`: not empty, without white space, and bounded by it or by the ends. */
  ghost predicate IsWord(s: string, tok: string) {
    exists i, j :: WordAt(s, i, j) && tok == s[i..j]
  }

  predicate WordAt(s: string, i: int, j: int) {
    && 0 <= i < j <= |s| && (forall k :: i <= k < j ==> !IsSpace(s[k]))
    && (i == 0 || IsSpace(s[i - 1])) && (j == |s| || IsSpace(s[j]))
  }

  lemma SliceOfTail(s: string, n: nat, i: nat, j: nat)
    requires i <= j && n + j <= |s|
    ensures s[n..][i..j] == s[n + i..n + j]
  {
  }

  lemma WordInTail(s: string, n: nat, i: int, j: int)
    requires n <= |s| && n <= i && WordAt(s, i, j)
    ensures WordAt(s[n..], i - n, j - n) && s[n..][i - n..j - n] == s[i..j]
  {
    SliceOfTail(s, n, i - n, j - n);
  }

  lemma WordOfTail(s: string, n: nat, i: int, j: int)
    requires n <= |s| && WordAt(s[n..], i, j)
    requires i > 0 || n == 0 || n == |s| || IsSpace(s[n - 1]) || IsSpace(s[n])
    ensures WordAt(s, n + i, n + j) && s[n + i..n + j] == s[n..][i..j]
  {
    SliceOfTail(s, n, i, j);
    forall k | n + i <= k < n + j ensures !IsSpace(s[k]) {
      assert s[k] == s[n..][k - n];
    }
  }

  /** Cutting off the first `n` characters, where no word straddles the cut, shifts the words behind it. */
  lemma WordsBehind(s: string, n: nat, tok: string)
    requires n <= |s| && (n == 0 || n == |s| || IsSpace(s[n - 1]) || IsSpace(s[n]))
    ensures IsWord(s[n..], tok) <==> exists i, j :: n <= i && WordAt(s, i, j) && tok == s[i..j]
  {
    if i, j :| WordAt(s[n..], i, j) && tok == s[n..][i..j] {
      WordOfTail(s, n, i, j);
    }
    if i, j :| n <= i && WordAt(s, i, j) && tok == s[i..j] {
      WordInTail(s, n, i, j);
    }
  }

  lemma FirstWord(s: string, i: int, j: int)
    requires WordAt(s, i, j) && i < TokenLength(s)
    ensures i == 0 && j == TokenLength(s)
  {
  }

  /** The tokens are exactly the words. */
  lemma {:induction false} FieldsMeaning(s: string, tok: string)
    ensures tok in Fields(s) <==> IsWord(s, tok)
    decreases |s|
  {
    if s == "" {
    } else if IsSpace(s[0]) {
      FieldsMeaning(s[1..], tok);
      WordsBehind(s, 1, tok);
      WordsBehind(s, 0, tok);
      assert s[0..] == s;
    } else {
      var k := TokenLength(s);
      FieldsMeaning(s[k..], tok);
      WordsBehind(s, k, tok);
      assert WordAt(s, 0, k);
      forall i, j | WordAt(s, i, j) && i < k ensures i == 0 && j == k {
        FirstWord(s, i, j);
      }
      assert s[..k] == s[0..k];
    }
  }

  /** Position of the first `c` in `s`, or -1: `strings.IndexByte`. */
  function IndexByte(s: string, c: char): (k: int)
    ensures -1 <= k < |s|
    ensures k >= 0 ==> s[k] == c
    ensures forall i :: 0 <= i < (if k < 0 then |s| else k) ==> s[i] != c
  {
    if s == [] then -1
    else if s[0] == c then 0
    else
      var k := IndexByte(s[1..], c);
      if k < 0 then -1 else k + 1
  }

  /** `name=version` with a non-empty name and a version other than "0". */
  function TokenEntries(tok: string, arch: string, ts: Time): seq<Entry> {
    var eq := IndexByte(tok, '=');
    if eq <= 0 || tok[eq + 1..] == "0" then []
    else [Entry(tok[..eq], PackageVersion(tok[eq + 1..], ts, arch))]
  }

  function TokensEntries(toks: seq<string>, arch: string, ts: Time): seq<Entry> {
    if toks == [] then []
    else TokensEntries(toks[..|toks| - 1], arch, ts) + TokenEntries(toks[|toks| - 1], arch, ts)
  }

  function ProvidesEntries(list: string, arch: string, ts: Time): seq<Entry> {
    TokensEntries(Fields(list), arch, ts)
  }

  /** The entry is what some token spells out as `name=version`. */
  ghost predicate Provides(tok: string, e: Entry) {
    && tok == e.name + "=" + e.item.version
    && e.name != "" && '=' !in e.name && e.item.version != "0"
  }

  lemma TokenMeaning(tok: string, arch: string, ts: Time, e: Entry)
    ensures e in TokenEntries(tok, arch, ts) <==> Provides(tok, e) && e.item.arch == arch && e.item.timestamp == ts
  {
    var eq := IndexByte(tok, '=');
    if Provides(tok, e) {
      assert tok[|e.name|] == '=';
      assert forall i :: 0 <= i < |e.name| ==> tok[i] == e.name[i] && e.name[i] in e.name;
      assert eq == |e.name|;
      assert tok[..eq] == e.name && tok[eq + 1..] == e.item.version;
      assert e == Entry(e.name, PackageVersion(e.item.version, e.item.timestamp, e.item.arch));
    }
    if e in TokenEntries(tok, arch, ts) {
      assert tok == tok[..eq] + "=" + tok[eq + 1..];
    }
  }

  /** A provided entry is listed exactly when a token spells it; bare names and `=0` add nothing. */
  lemma {:induction false} ProvidesMeaning(toks: seq<string>, arch: string, ts: Time, e: Entry)
    ensures e in TokensEntries(toks, arch, ts)
       <==> (exists tok :: tok in toks && Provides(tok, e)) && e.item.arch == arch && e.item.timestamp == ts
  {
    if toks != [] {
      var init, last := toks[..|toks| - 1], toks[|toks| - 1];
      ProvidesMeaning(init, arch, ts, e);
      TokenMeaning(last, arch, ts, e);
      assert forall tok :: tok in toks <==> tok in init || tok == last;
    }
  }

  // ---------- what a text contributes ----------

  function RecordEntries(rec: seq<string>, arch: string): seq<Entry> {
    if !IsPackage(rec) then []
    else
      var ts := LastTimestamp(rec);
      [Entry(LastField(rec, 'P'), PackageVersion(LastField(rec, 'V'), ts, arch))]
      + ProvidesEntries(LastField(rec, 'p'), arch, ts)
  }

  // ---------- the same, read off the lines ----------

  /** `val` follows the key and a colon on the last line that has them; no such line leaves it empty. */
  ghost predicate LastValue(rec: seq<string>, key: char, val: string) {
    || (val == "" && forall j :: 0 <= j < |rec| ==> !([key, ':'] <= rec[j]))
    || exists i :: 0 <= i < |rec| && rec[i] == [key, ':'] + val && forall j :: i < j < |rec| ==> !([key, ':'] <= rec[j])
  }

  /** The line is a `t:` line whose value is an accepted second, and this is the instant. */
  ghost predicate Dates(line: string, t: Time) {
    "t:" <= line && exists n :: Spells(line[2..], n) && AcceptedSeconds(n) && t == (n + 62135596800) * 1_000_000_000
  }

  ghost predicate Datable(line: string) { exists t :: Dates(line, t) }

  /** The instant of the last line that dates the record; none leaves it at zero. */
  ghost predicate RecordTime(rec: seq<string>, t: Time) {
    (t == 0 && NoneDates(rec, 0)) || exists i: nat :: i < |rec| && Dates(rec[i], t) && NoneDates(rec, i + 1)
  }

  /** No line from `i` on dates the record. */
  ghost predicate NoneDates(rec: seq<string>, i: nat) {
    forall j :: i <= j < |rec| ==> !Datable(rec[j])
  }

  lemma FieldLine(line: string, key: char)
    ensures IsField(line, key) <==> [key, ':'] <= line
    ensures IsField(line, key) ==> line == [key, ':'] + line[2..]
  {
  }

  lemma DatesLine(line: string)
    ensures DatesRecord(line) <==> Datable(line)
    ensures forall t :: Dates(line, t) ==> DatesRecord(line) && ParseTimestamp(line[2..]) == Some(t)
  {
    FieldLine(line, 't');
    if |line| >= 2 {
      TimestampAccepted(line[2..]);
      if DatesRecord(line) {
        var n :| Spells(line[2..], n) && AcceptedSeconds(n);
        assert Dates(line, (n + 62135596800) * 1_000_000_000);
      }
    }
  }

  lemma {:induction false} LastFieldIs(rec: seq<string>, key: char, val: string)
    ensures LastField(rec, key) == val <==> LastValue(rec, key, val)
  {
    if rec != [] {
      var init, n := rec[..|rec| - 1], |rec| - 1;
      LastFieldIs(init, key, val);
      FieldLine(rec[n], key);
      assert forall j :: 0 <= j < n ==> init[j] == rec[j];
      if IsField(rec[n], key) {
        assert LastField(rec, key) == rec[n][2..];
        assert ([key, ':'] + val)[2..] == val;
      } else {
        LastValueSkips(rec, key, val);
      }
    }
  }

  lemma LastValueSkips(rec: seq<string>, key: char, val: string)
    requires rec != [] && !([key, ':'] <= rec[|rec| - 1])
    ensures LastValue(rec, key, val) <==> LastValue(rec[..|rec| - 1], key, val)
  {
    var init := rec[..|rec| - 1];
    assert forall j :: 0 <= j < |init| ==> init[j] == rec[j];
    if i :| 0 <= i < |rec| && rec[i] == [key, ':'] + val && forall j :: i < j < |rec| ==> !([key, ':'] <= rec[j]) {
      assert i < |init| && init[i] == rec[i];
    }
  }

  lemma {:induction false} LastTimestampIs(rec: seq<string>, t: Time)
    ensures LastTimestamp(rec) == t <==> RecordTime(rec, t)
  {
    if rec != [] {
      var init, n := rec[..|rec| - 1], |rec| - 1;
      DatesLine(rec[n]);
      if DatesRecord(rec[n]) {
        RecordTimeLast(rec, t);
      } else {
        LastTimestampIs(init, t);
        RecordTimeSkips(rec, t);
      }
    }
  }

  lemma RecordTimeLast(rec: seq<string>, t: Time)
    requires rec != [] && Datable(rec[|rec| - 1])
    ensures RecordTime(rec, t) <==> Dates(rec[|rec| - 1], t)
  {
    var n: nat := |rec| - 1;
    assert NoneDates(rec, n + 1);
    if i: nat :| i < |rec| && Dates(rec[i], t) && NoneDates(rec, i + 1) {
      assert i == n;
    }
  }

  lemma RecordTimeSkips(rec: seq<string>, t: Time)
    requires rec != [] && !Datable(rec[|rec| - 1])
    ensures RecordTime(rec, t) <==> RecordTime(rec[..|rec| - 1], t)
  {
    var init := rec[..|rec| - 1];
    forall i: nat | i <= |rec| ensures NoneDates(rec, i) <==> NoneDates(init, i) {
      assert forall j :: 0 <= j < |init| ==> init[j] == rec[j];
    }
    if i: nat :| i < |rec| && Dates(rec[i], t) && NoneDates(rec, i + 1) {
      assert i < |init| && init[i] == rec[i];
    }
    if i: nat :| i < |init| && Dates(init[i], t) && NoneDates(init, i + 1) {
      assert init[i] == rec[i];
    }
  }

  /** The record names a package and its version, and `e` is that or what a word of its `p:` line spells. */
  ghost predicate Files(rec: seq<string>, arch: string, e: Entry, name: string, version: string, list: string) {
    && LastValue(rec, 'P', name) && LastValue(rec, 'V', version) && LastValue(rec, 'p', list)
    && name != "" && version != "" && e.item.arch == arch && RecordTime(rec, e.item.timestamp)
    && ((e.name == name && e.item.version == version) || exists tok :: IsWord(list, tok) && Provides(tok, e))
  }

  ghost predicate RecordFiles(rec: seq<string>, arch: string, e: Entry) {
    exists name, version, list :: Files(rec, arch, e, name, version, list)
  }

  /** What a record files, read off its lines. */
  lemma RecordMeaning(rec: seq<string>, arch: string, e: Entry)
    ensures e in RecordEntries(rec, arch) <==> RecordFiles(rec, arch, e)
  {
    var name, version, list := LastField(rec, 'P'), LastField(rec, 'V'), LastField(rec, 'p');
    var ts := LastTimestamp(rec);
    forall val
      ensures val == name <==> LastValue(rec, 'P', val)
      ensures val == version <==> LastValue(rec, 'V', val)
      ensures val == list <==> LastValue(rec, 'p', val)
    {
      LastFieldIs(rec, 'P', val);
      LastFieldIs(rec, 'V', val);
      LastFieldIs(rec, 'p', val);
    }
    LastTimestampIs(rec, e.item.timestamp);
    ProvidesMeaning(Fields(list), arch, ts, e);
    forall tok ensures tok in Fields(list) <==> IsWord(list, tok) {
      FieldsMeaning(list, tok);
    }
    assert RecordFiles(rec, arch, e) <==> Files(rec, arch, e, name, version, list);
    OwnEntry(e, name, version, arch);
  }

  lemma OwnEntry(e: Entry, name: string, version: string, arch: string)
    ensures e.name == name && e.item.version == version && e.item.arch == arch <==>
        e == Entry(name, PackageVersion(version, e.item.timestamp, arch))
  {
  }

  function RecordsEntries(recs: seq<seq<string>>, arch: string): seq<Entry> {
    if recs == [] then []
    else RecordsEntries(recs[..|recs| - 1], arch) + RecordEntries(recs[|recs| - 1], arch)
  }

  function PackageCount(recs: seq<seq<string>>): nat {
    |Filter(recs, IsPackage)|
  }

  function Entries(lines: seq<string>, arch: string): seq<Entry> {
    RecordsEntries(Records(lines), arch)
  }

  lemma {:induction false} RecordsEntriesConcat(a: seq<seq<string>>, b: seq<seq<string>>, arch: string)
    ensures RecordsEntries(a + b, arch) == RecordsEntries(a, arch) + RecordsEntries(b, arch)
  {
    if b == [] {
      assert a + b == a;
    } else {
      RecordsEntriesConcat(a, b[..|b| - 1], arch);
      assert (a + b)[..|a + b| - 1] == a + b[..|b| - 1];
      assert (a + b)[|a + b| - 1] == b[|b| - 1];
      AppendAssoc(RecordsEntries(a, arch), RecordsEntries(b[..|b| - 1], arch), RecordEntries(b[|b| - 1], arch));
    }
  }

  predicate WellFormedEntry(e: Entry, arch: string) {
    e.item.arch == arch && ValidTimestamp(e.item.timestamp) && e.name != ""
  }

  /** Whatever the text, every entry has a name, the feed's architecture and a JSON-safe time. */
  lemma {:induction false} EntriesWellFormed(recs: seq<seq<string>>, arch: string)
    ensures forall e :: e in RecordsEntries(recs, arch) ==> WellFormedEntry(e, arch)
  {
    if recs != [] {
      var rec := recs[|recs| - 1];
      EntriesWellFormed(recs[..|recs| - 1], arch);
      LastTimestampRange(rec);
      var toks, ts := Fields(LastField(rec, 'p')), LastTimestamp(rec);
      forall e | e in TokensEntries(toks, arch, ts) ensures WellFormedEntry(e, arch) {
        ProvidesMeaning(toks, arch, ts, e);
      }
    }
  }

  // ---------- the multimap ----------

  function Lookup(m: Index, name: string): seq<PackageVersion> {
    if name in m then m[name] else []
  }

  function Append(m: Index, e: Entry): Index {
    m[e.name := Lookup(m, e.name) + [e.item]]
  }

  function AddAll(m: Index, es: seq<Entry>): Index {
    if es == [] then m else Append(AddAll(m, es[..|es| - 1]), es[|es| - 1])
  }

  lemma {:induction false} AddAllConcat(m: Index, a: seq<Entry>, b: seq<Entry>)
    ensures AddAll(AddAll(m, a), b) == AddAll(m, a + b)
  {
    if b == [] {
      assert a + b == a;
    } else {
      AddAllConcat(m, a, b[..|b| - 1]);
      assert (a + b)[..|a + b| - 1] == a + b[..|b| - 1];
    }
  }

  /** A text, a blank line and another text file the same entries as one after the other. */
  lemma ParseConcat(m: Index, a: seq<string>, b: seq<string>, arch: string)
    ensures AddAll(m, Entries(a + [""] + b, arch)) == AddAll(AddAll(m, Entries(a, arch)), Entries(b, arch))
  {
    RecordsConcat(a, b);
    RecordsEntriesConcat(Records(a), Records(b), arch);
    AddAllConcat(m, Entries(a, arch), Entries(b, arch));
  }

  /** And they count the same number of packages. */
  lemma CountConcat(a: seq<string>, b: seq<string>)
    ensures PackageCount(Records(a + [""] + b)) == PackageCount(Records(a)) + PackageCount(Records(b))
  {
    RecordsConcat(a, b);
    FilterAppend(Records(a), Records(b), IsPackage);
  }

  /** A name's list holds exactly the items filed under it, and no key has an empty list. */
  lemma {:induction false} AddAllContents(es: seq<Entry>, name: string)
    ensures forall v :: v in Lookup(AddAll(map[], es), name) <==> Entry(name, v) in es
    ensures name in AddAll(map[], es) ==> AddAll(map[], es)[name] != []
  {
    if es != [] {
      var init, last := es[..|es| - 1], es[|es| - 1];
      AddAllContents(init, name);
      assert es == init + [last];
      forall v ensures v in Lookup(AddAll(map[], es), name) <==> Entry(name, v) in es {
        assert Entry(name, v) in es <==> Entry(name, v) in init || Entry(name, v) == last;
      }
    }
  }

  // ---------- whole texts, read off the lines ----------

  /** The lines from i up to j are a record: none of them blank, bounded by blank lines or the ends. */
  ghost predicate BlockAt(lines: seq<string>, i: int, j: int) {
    && 0 <= i <= j <= |lines| && (forall k :: i <= k < j ==> lines[k] != "")
    && (i == 0 || lines[i - 1] == "") && (j == |lines| || lines[j] == "")
  }

  ghost predicate IsBlock(lines: seq<string>, rec: seq<string>) {
    exists i, j :: BlockAt(lines, i, j) && rec == lines[i..j]
  }

  /** The same for the records that a blank line has closed. */
  ghost predicate IsClosedBlock(lines: seq<string>, rec: seq<string>) {
    exists i, j :: j < |lines| && BlockAt(lines, i, j) && rec == lines[i..j]
  }

  lemma BlockBefore(lines: seq<string>, line: string, i: int, j: int)
    requires j < |lines|
    ensures BlockAt(lines + [line], i, j) <==> BlockAt(lines, i, j)
    ensures BlockAt(lines, i, j) ==> (lines + [line])[i..j] == lines[i..j]
  {
    var more := lines + [line];
    assert forall k :: 0 <= k < |lines| ==> more[k] == lines[k];
  }

  lemma OpenBlock(lines: seq<string>, i: int, line: string)
    requires BlockAt(lines, i, |lines|)
    ensures line != "" ==> BlockAt(lines + [line], i, |lines| + 1)
    ensures line == "" ==> BlockAt(lines + [line], i, |lines|) && BlockAt(lines + [line], |lines| + 1, |lines| + 1)
  {
    assert forall k :: 0 <= k < |lines| ==> (lines + [line])[k] == lines[k];
  }

  lemma ClosedBlocks(lines: seq<string>, line: string, open: int, rec: seq<string>)
    requires BlockAt(lines, open, |lines|)
    ensures IsClosedBlock(lines + [line], rec)
       <==> IsClosedBlock(lines, rec) || (line == "" && rec == lines[open..])
  {
    var more := lines + [line];
    assert more[open..|lines|] == lines[open..];
    if i, j :| j < |lines| && BlockAt(lines, i, j) && rec == lines[i..j] {
      BlockBefore(lines, line, i, j);
      assert BlockAt(more, i, j);
    }
    if i, j :| j < |more| && BlockAt(more, i, j) && rec == more[i..j] {
      if j < |lines| {
        BlockBefore(lines, line, i, j);
      } else {
        assert i == open by {
          OneOpenBlock(lines, line, i, open);
        }
      }
    }
    if line == "" {
      OpenBlock(lines, open, line);
      assert BlockAt(more, open, |lines|);
    }
  }

  lemma OneOpenBlock(lines: seq<string>, line: string, i: int, open: int)
    requires BlockAt(lines, open, |lines|) && BlockAt(lines + [line], i, |lines|)
    ensures i == open
  {
    var more := lines + [line];
    assert open > 0 ==> more[open - 1] == lines[open - 1];
    assert i > 0 ==> more[i - 1] == lines[i - 1];
  }

  /** The records are the blocks: those a blank line closed, in front, and the one still open. */
  lemma {:induction false} RecordsAreBlocks(lines: seq<string>) returns (open: nat)
    ensures BlockAt(lines, open, |lines|)
    ensures var rs := Records(lines);
      rs[|rs| - 1] == lines[open..] && forall rec :: rec in rs[..|rs| - 1] <==> IsClosedBlock(lines, rec)
  {
    if lines == [] {
      return 0;
    }
    var init, line := lines[..|lines| - 1], lines[|lines| - 1];
    assert init + [line] == lines;
    var before := RecordsAreBlocks(init);
    OpenBlock(init, before, line);
    forall rec ensures IsClosedBlock(lines, rec) <==> IsClosedBlock(init, rec) || (line == "" && rec == init[before..]) {
      ClosedBlocks(init, line, before, rec);
    }
    var rs := Records(init);
    if line == "" {
      open := |lines|;
      assert (rs + [[]])[..|rs|] == rs;
      assert forall rec :: rec in rs <==> rec in rs[..|rs| - 1] || rec == rs[|rs| - 1];
    } else {
      open := before;
      assert (rs[..|rs| - 1] + [rs[|rs| - 1] + [line]])[..|rs| - 1] == rs[..|rs| - 1];
    }
  }

  lemma RecordIsBlock(lines: seq<string>, rec: seq<string>)
    ensures rec in Records(lines) <==> IsBlock(lines, rec)
  {
    var open := RecordsAreBlocks(lines);
    var rs := Records(lines);
    assert rec in rs <==> rec in rs[..|rs| - 1] || rec == rs[|rs| - 1];
    assert lines[open..] == lines[open..|lines|] && IsBlock(lines, lines[open..]);
    if IsClosedBlock(lines, rec) {
      var i, j :| j < |lines| && BlockAt(lines, i, j) && rec == lines[i..j];
      assert IsBlock(lines, rec);
    }
    if i, j :| BlockAt(lines, i, j) && rec == lines[i..j] {
      if j < |lines| {
        assert IsClosedBlock(lines, rec);
      } else {
        assert i == open by {
          assert i > 0 ==> lines[i - 1] == "";
          assert open > 0 ==> lines[open - 1] == "";
        }
      }
    }
  }

  ghost predicate SomeFiles(recs: seq<seq<string>>, arch: string, e: Entry) {
    exists rec :: rec in recs && RecordFiles(rec, arch, e)
  }

  lemma SomeFilesLast(init: seq<seq<string>>, last: seq<string>, arch: string, e: Entry)
    ensures SomeFiles(init + [last], arch, e) <==> SomeFiles(init, arch, e) || RecordFiles(last, arch, e)
  {
    if rec :| rec in init && RecordFiles(rec, arch, e) {
      assert rec in init + [last];
    }
    assert last in init + [last];
  }

  lemma {:induction false} RecordsEntriesMember(recs: seq<seq<string>>, arch: string, e: Entry)
    ensures e in RecordsEntries(recs, arch) <==> SomeFiles(recs, arch, e)
  {
    if recs != [] {
      var init, last := recs[..|recs| - 1], recs[|recs| - 1];
      assert init + [last] == recs;
      RecordsEntriesMember(init, arch, e);
      RecordMeaning(last, arch, e);
      SomeFilesLast(init, last, arch, e);
    }
  }

  /** A text files exactly what its blocks of lines file. */
  lemma TextMeaning(lines: seq<string>, arch: string, e: Entry)
    ensures e in Entries(lines, arch) <==> exists rec :: IsBlock(lines, rec) && RecordFiles(rec, arch, e)
  {
    RecordsEntriesMember(Records(lines), arch, e);
    forall rec ensures rec in Records(lines) <==> IsBlock(lines, rec) {
      RecordIsBlock(lines, rec);
    }
  }

  ghost predicate NamesPackage(rec: seq<string>) {
    exists name, version :: LastValue(rec, 'P', name) && LastValue(rec, 'V', version) && name != "" && version != ""
  }

  lemma IsPackageMeaning(rec: seq<string>)
    ensures IsPackage(rec) <==> NamesPackage(rec)
  {
    LastFieldIs(rec, 'P', LastField(rec, 'P'));
    LastFieldIs(rec, 'V', LastField(rec, 'V'));
    if name, version :| LastValue(rec, 'P', name) && LastValue(rec, 'V', version) && name != "" && version != "" {
      LastFieldIs(rec, 'P', name);
      LastFieldIs(rec, 'V', version);
    }
  }

  /** The count is that of the records that name a package and its version. */
  lemma PackageCountMeaning(recs: seq<seq<string>>)
    ensures PackageCount(recs) == |set k | 0 <= k < |recs| && NamesPackage(recs[k])|
  {
    var pick := FilterPicks(recs, IsPackage);
    PickCount(pick, |recs|);
    forall k | 0 <= k < |recs| ensures k in pick <==> NamesPackage(recs[k]) {
      IsPackageMeaning(recs[k]);
    }
    assert (set k | 0 <= k < |recs| && k in pick) == (set k | 0 <= k < |recs| && NamesPackage(recs[k]));
  }

  /** `list` holds the items of exactly the entries for `name`: once each, and in order. */
  ghost predicate FiledInOrder(list: seq<PackageVersion>, es: seq<Entry>, name: string, pick: seq<nat>) {
    && Picks(pick, |es|) && |list| == |pick|
    && (forall j :: 0 <= j < |list| ==> list[j] == es[pick[j]].item)
    && (forall i :: 0 <= i < |es| ==> (i in pick <==> es[i].name == name))
  }

  lemma FiledHit(list: seq<PackageVersion>, init: seq<Entry>, pick: seq<nat>, e: Entry)
    requires FiledInOrder(list, init, e.name, pick)
    ensures FiledInOrder(list + [e.item], init + [e], e.name, pick + [|init|])
  {
    PickMore(pick, |init|);
    assert forall i :: 0 <= i < |init| ==> (init + [e])[i] == init[i];
  }

  lemma FiledMiss(list: seq<PackageVersion>, init: seq<Entry>, name: string, pick: seq<nat>, e: Entry)
    requires FiledInOrder(list, init, name, pick) && e.name != name
    ensures FiledInOrder(list, init + [e], name, pick)
  {
    PickMore(pick, |init|);
    assert forall i :: 0 <= i < |init| ==> (init + [e])[i] == init[i];
  }

  /** Filing loses nothing, repeats nothing, and keeps the order. */
  lemma {:induction false} AddAllInOrder(es: seq<Entry>, name: string) returns (pick: seq<nat>)
    ensures FiledInOrder(Lookup(AddAll(map[], es), name), es, name, pick)
  {
    if es == [] {
      return [];
    }
    var init, last := es[..|es| - 1], es[|es| - 1];
    assert init + [last] == es;
    var rest := AddAllInOrder(init, name);
    if last.name == name {
      FiledHit(Lookup(AddAll(map[], init), name), init, rest, last);
      return rest + [|init|];
    }
    FiledMiss(Lookup(AddAll(map[], init), name), init, name, rest, last);
    return rest;
  }
}
