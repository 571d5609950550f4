/**
 * Parsing of `/etc/passwd` lines: `PasswdEntry::parse_entry` and the two
 * finders that scan a reader line by line. A reader is a sequence of
 * `Option<string>`: `Some(line)` for a line read, `None` for a read error.
 * A panic of the original (an index out of bounds, an `unwrap` of a failed
 * number parse) is an `Err(Panic)` here.
 */
module Passwd {
  import opened Wrappers
  import opened Ints

  datatype PasswdEntry = PasswdEntry(
    username: string,
    passwordInShadow: bool,
    uid: u32,
    gid: u32,
    gecos: string,
    homeDir: string,
    shell: string)

  /** Why parsing panics: a field index past the end, or an `unwrap` of a failed number parse. */
  datatype Panic = IndexOutOfBounds(index: nat) | UnwrapParseError(index: nat)

  predicate ColonFree(s: string) {
    forall i :: 0 <= i < |s| ==> s[i] != ':'
  }

  /** `:`-separated pieces joined back with `:`. */
  function Join(fields: seq<string>): string
    requires |fields| >= 1
  {
    if |fields| == 1 then fields[0] else fields[0] + ":" + Join(fields[1..])
  }

  /** `str::split(':')`: the pieces between colons, empty ones included. */
  function Split(s: string): (fields: seq<string>)
    ensures |fields| >= 1
  {
    if s == [] then [""]
    else if s[0] == ':' then [""] + Split(s[1..])
    else
      var rest := Split(s[1..]);
      [[s[0]] + rest[0]] + rest[1..]
  }

  /** No piece holds a colon, and joining the pieces with `:` gives the string back. */
  lemma {:induction false} SplitSpec(s: string)
    ensures forall i :: 0 <= i < |Split(s)| ==> ColonFree(Split(s)[i])
    ensures Join(Split(s)) == s
  {
    if s != [] {
      var rest := Split(s[1..]);
      SplitSpec(s[1..]);
      if s[0] != ':' {
        var fields := [[s[0]] + rest[0]] + rest[1..];
        assert Join(fields) == [s[0]] + Join(rest) by {
          if |rest| > 1 {
            assert fields[1..] == rest[1..];
          }
        }
        assert ColonFree(fields[0]) by {
          assert forall j :: 1 <= j < |fields[0]| ==> fields[0][j] == rest[0][j - 1];
        }
        assert forall i :: 1 <= i < |fields| ==> fields[i] == rest[i];
      } else {
        assert forall i :: 1 <= i < |Split(s)| ==> Split(s)[i] == rest[i - 1];
      }
    }
  }

  /** A colon-free string followed by `:` splits into itself and the pieces of the rest. */
  lemma {:induction false} SplitAfterField(a: string, t: string)
    requires ColonFree(a)
    ensures Split(a + ":" + t) == [a] + Split(t)
  {
    if a == [] {
      assert a + ":" + t == [':'] + t;
      assert (a + ":" + t)[1..] == t;
    } else {
      var s := a + ":" + t;
      assert s[0] == a[0] && s[1..] == a[1..] + ":" + t;
      SplitAfterField(a[1..], t);
      var rest := Split(s[1..]);
      assert rest[0] == a[1..] && rest[1..] == Split(t);
      assert [a[0]] + a[1..] == a;
    }
  }

  /** A colon-free string is a single piece. */
  lemma {:induction false} SplitField(a: string)
    requires ColonFree(a)
    ensures Split(a) == [a]
  {
    if a != [] {
      SplitField(a[1..]);
      assert a[0] != ':' && [a[0]] + a[1..] == a;
    }
  }

  /** Splitting undoes joining, whenever no piece holds a colon. */
  lemma {:induction false} SplitJoin(fields: seq<string>)
    requires |fields| >= 1
    requires forall i :: 0 <= i < |fields| ==> ColonFree(fields[i])
    ensures Split(Join(fields)) == fields
  {
    if |fields| == 1 {
      SplitField(fields[0]);
    } else {
      SplitJoin(fields[1..]);
      SplitAfterField(fields[0], Join(fields[1..]));
    }
  }

  /** Splitting `a:b` gives the pieces of `a` followed by the pieces of `b`. */
  lemma {:induction false} SplitConcat(a: string, b: string)
    ensures Split(a + ":" + b) == Split(a) + Split(b)
  {
    var fa := Split(a);
    var fb := Split(b);
    SplitSpec(a);
    SplitSpec(b);
    SplitJoin(fa + fb);
    JoinConcat(fa, fb);
  }

  lemma {:induction false} JoinConcat(a: seq<string>, b: seq<string>)
    requires |a| >= 1 && |b| >= 1
    ensures Join(a + b) == Join(a) + ":" + Join(b)
  {
    if |a| == 1 {
      assert (a + b)[1..] == b;
    } else {
      assert (a + b)[1..] == a[1..] + b;
      JoinConcat(a[1..], b);
    }
  }

  predicate IsDigit(c: char) {
    '0' <= c <= '9'
  }

  predicate AllDigits(s: string) {
    forall i :: 0 <= i < |s| ==> IsDigit(s[i])
  }

  /** The number a string of decimal digits denotes, most significant digit first. */
  function DigitsValue(s: string): nat
    requires AllDigits(s)
  {
    if s == [] then 0 else 10 * DigitsValue(s[..|s| - 1]) + (s[|s| - 1] as int - '0' as int)
  }

  /** `u32::from_str`: an optional `+`, then at least one decimal digit, denoting less than 2^32. */
  function ParseU32(s: string): (r: Option<u32>)
    ensures r.Some? ==> ColonFree(s) && s != [] && s != "+"
  {
    var digits := if |s| > 0 && s[0] == '+' then s[1..] else s;
    if digits == [] || !AllDigits(digits) then None
    else
      var n := DigitsValue(digits);
      if n < TWO_32 then Some(n) else None
  }

  /** `n` written in decimal, without sign or leading zeros. */
  function Decimal(n: nat): (s: string)
    ensures |s| >= 1 && AllDigits(s)
  {
    if n < 10 then [('0' as int + n) as char]
    else Decimal(n / 10) + [('0' as int + n % 10) as char]
  }

  lemma {:induction false} DecimalValue(n: nat)
    ensures DigitsValue(Decimal(n)) == n
  {
    if n >= 10 {
      DecimalValue(n / 10);
      var s := Decimal(n);
      assert s[..|s| - 1] == Decimal(n / 10);
    }
  }

  /** Parsing a number written in decimal gives the number back. */
  lemma ParseDecimal(n: u32)
    ensures ParseU32(Decimal(n)) == Some(n)
  {
    DecimalValue(n);
  }

  /**
   * `parse_entry`: split on `:` and read the fields in the order the struct
   * literal names them. Field 1 only decides whether the password lives in
   * the shadow file; fields after the seventh are ignored.
   */
  function ParseEntry(line: string): Result<PasswdEntry, Panic> {
    var f := Split(line);
    if |f| < 2 then Err(IndexOutOfBounds(1))
    else if |f| < 3 then Err(IndexOutOfBounds(2))
    else match ParseU32(f[2])
      case None => Err(UnwrapParseError(2))
      case Some(uid) =>
        if |f| < 4 then Err(IndexOutOfBounds(3))
        else match ParseU32(f[3])
          case None => Err(UnwrapParseError(3))
          case Some(gid) =>
            if |f| < 7 then Err(IndexOutOfBounds(|f|))
            else Ok(PasswdEntry(f[0], f[1] == "x", uid, gid, f[4], f[5], f[6]))
  }

  /**
   * What `parse_entry` promises: it succeeds exactly when there are at least
   * seven fields and fields 2 and 3 are `u32` numbers; then the username is
   * field 0, the password is in the shadow file exactly when field 1 is `x`,
   * uid and gid are the numbers in fields 2 and 3, and gecos, home directory
   * and shell are fields 4, 5 and 6.
   */
  lemma ParseEntrySpec(line: string)
    ensures var f := Split(line); var r := ParseEntry(line);
      && (r.Ok? <==> |f| >= 7 && ParseU32(f[2]).Some? && ParseU32(f[3]).Some?)
      && (r.Ok? ==>
            && r.value.username == f[0]
            && (r.value.passwordInShadow <==> f[1] == "x")
            && Some(r.value.uid) == ParseU32(f[2])
            && Some(r.value.gid) == ParseU32(f[3])
            && r.value.gecos == f[4] && r.value.homeDir == f[5] && r.value.shell == f[6])
  {
  }

  /** The panic names the first field, in evaluation order, that is missing or not a number. */
  lemma ParsePanics(line: string)
    ensures var f := Split(line);
      && (|f| < 3 ==> ParseEntry(line) == Err(IndexOutOfBounds(|f|)))
      && (|f| >= 3 && ParseU32(f[2]).None? ==> ParseEntry(line) == Err(UnwrapParseError(2)))
      && (|f| == 3 && ParseU32(f[2]).Some? ==> ParseEntry(line) == Err(IndexOutOfBounds(3)))
      && (|f| >= 4 && ParseU32(f[2]).Some? && ParseU32(f[3]).None? ==>
            ParseEntry(line) == Err(UnwrapParseError(3)))
      && (4 <= |f| < 7 && ParseU32(f[2]).Some? && ParseU32(f[3]).Some? ==>
            ParseEntry(line) == Err(IndexOutOfBounds(|f|)))
  {
  }

  /**
   * Round trip: seven colon-free fields joined with `:`, uid and gid written
   * in decimal, parse back to those fields.
   */
  lemma RoundTrip(user: string, password: string, uid: u32, gid: u32,
                  gecos: string, home: string, shell: string)
    requires ColonFree(user) && ColonFree(password) && ColonFree(gecos)
    requires ColonFree(home) && ColonFree(shell)
    ensures ParseEntry(Join([user, password, Decimal(uid), Decimal(gid), gecos, home, shell]))
      == Ok(PasswdEntry(user, password == "x", uid, gid, gecos, home, shell))
  {
    var fields := [user, password, Decimal(uid), Decimal(gid), gecos, home, shell];
    forall i | 0 <= i < |fields|
      ensures ColonFree(fields[i])
    {
      if i == 2 || i == 3 {
        var d := fields[i];
        assert forall j :: 0 <= j < |d| ==> IsDigit(d[j]);
      }
    }
    SplitJoin(fields);
    ParseDecimal(uid);
    ParseDecimal(gid);
    ParseEntrySpec(Join(fields));
  }

  /** Anything after a seventh field does not change the parse. */
  lemma TrailingFieldsIgnored(line: string, extra: string)
    requires |Split(line)| >= 7
    ensures ParseEntry(line + ":" + extra) == ParseEntry(line)
  {
    SplitConcat(line, extra);
    var f := Split(line);
    var g := Split(line + ":" + extra);
    assert g[..7] == f[..7];
  }

  /** The first `:`-field of a line: what the finder compares with the name. */
  function FirstField(line: string): string {
    Split(line)[0]
  }

  /** The lines read before the first read error. */
  function ReadablePrefix(lines: seq<Option<string>>): (p: seq<string>)
    ensures |p| <= |lines|
    ensures forall i :: 0 <= i < |p| ==> lines[i] == Some(p[i])
    ensures |p| < |lines| ==> lines[|p|].None?
  {
    if lines == [] then []
    else match lines[0]
      case None => []
      case Some(s) => [s] + ReadablePrefix(lines[1..])
  }

  /** Lines after a read error are never looked at. */
  lemma {:induction false} ReadErrorHidesRest(before: seq<Option<string>>, after: seq<Option<string>>)
    ensures ReadablePrefix(before + [None] + after) == ReadablePrefix(before + [None])
  {
    if before != [] {
      assert (before + [None] + after)[1..] == before[1..] + [None] + after;
      assert (before + [None])[1..] == before[1..] + [None];
      ReadErrorHidesRest(before[1..], after);
    }
  }

  /** `Ok(Some(e))` for a parsed entry, the panic otherwise. */
  function Found(r: Result<PasswdEntry, Panic>): Result<Option<PasswdEntry>, Panic> {
    match r
    case Ok(e) => Ok(Some(e))
    case Err(p) => Err(p)
  }

  /** The parse of the first of `lines` whose first field is `name`; `Ok(None)` when none is. */
  function FindEntry(name: string, lines: seq<string>): Result<Option<PasswdEntry>, Panic> {
    if lines == [] then Ok(None)
    else if FirstField(lines[0]) == name then Found(ParseEntry(lines[0]))
    else FindEntry(name, lines[1..])
  }

  /**
   * Nothing is found exactly when no line has `name` as its first field;
   * otherwise the result is the parse of the first line that does, and a
   * parsed entry carries `name` as its username.
   */
  lemma {:induction false} FindEntrySpec(name: string, lines: seq<string>)
    ensures var r := FindEntry(name, lines);
      && (r == Ok(None) <==> forall j :: 0 <= j < |lines| ==> FirstField(lines[j]) != name)
      && (r != Ok(None) ==>
            exists j :: 0 <= j < |lines| && FirstField(lines[j]) == name &&
              (forall k :: 0 <= k < j ==> FirstField(lines[k]) != name) &&
              r == Found(ParseEntry(lines[j])))
      && (r.Ok? && r.value.Some? ==> r.value.value.username == name)
  {
    if lines != [] {
      if FirstField(lines[0]) == name {
        ParseEntrySpec(lines[0]);
      } else {
        var rest := lines[1..];
        FindEntrySpec(name, rest);
        assert forall j :: 1 <= j < |lines| ==> lines[j] == rest[j - 1];
        if FindEntry(name, rest) != Ok(None) {
          var j :| 0 <= j < |rest| && FirstField(rest[j]) == name &&
            (forall k :: 0 <= k < j ==> FirstField(rest[k]) != name) &&
            FindEntry(name, rest) == Found(ParseEntry(rest[j]));
          assert lines[j + 1] == rest[j];
        }
      }
    }
  }

  /** The values of `rs` in order when all are `Ok`; the first `Err` otherwise. */
  function Collect<T, E>(rs: seq<Result<T, E>>): Result<seq<T>, E> {
    if rs == [] then Ok([])
    else match rs[0]
      case Err(e) => Err(e)
      case Ok(v) => Prepend([v], Collect(rs[1..]))
  }

  /** `vs` in front of the values of `r`; an error stays that error. */
  function Prepend<T, E>(vs: seq<T>, r: Result<seq<T>, E>): Result<seq<T>, E> {
    match r
    case Ok(t) => Ok(vs + t)
    case Err(e) => Err(e)
  }

  /**
   * Collecting succeeds exactly when every result is `Ok`, and then value
   * `j` is that of result `j`; otherwise the error is that of the first
   * `Err`.
   */
  lemma {:induction false} CollectSpec<T, E>(rs: seq<Result<T, E>>)
    ensures var r := Collect(rs);
      && (r.Ok? <==> forall j :: 0 <= j < |rs| ==> rs[j].Ok?)
      && (r.Ok? ==> |r.value| == |rs| && forall j :: 0 <= j < |rs| ==> rs[j] == Ok(r.value[j]))
      && (r.Err? ==>
            exists j :: 0 <= j < |rs| && rs[j] == Err(r.error) && forall k :: 0 <= k < j ==> rs[k].Ok?)
  {
    if rs != [] {
      var rest := rs[1..];
      CollectSpec(rest);
      assert forall j :: 1 <= j < |rs| ==> rs[j] == rest[j - 1];
      if rs[0].Ok? && Collect(rest).Err? {
        var j :| 0 <= j < |rest| && rest[j] == Err(Collect(rest).error) &&
          forall k :: 0 <= k < j ==> rest[k].Ok?;
        assert rs[j + 1] == rest[j];
      }
    }
  }

  /** One more result looked at: its value joins the prefix, or its error ends the collection. */
  lemma CollectStep<T, E>(rs: seq<Result<T, E>>, i: nat, vs: seq<T>)
    requires i < |rs|
    requires Collect(rs) == Prepend(vs, Collect(rs[i..]))
    ensures match rs[i]
      case Ok(v) => Collect(rs) == Prepend(vs + [v], Collect(rs[i + 1..]))
      case Err(e) => Collect(rs) == Err(e)
  {
    assert rs[i..][0] == rs[i] && rs[i..][1..] == rs[i + 1..];
    if rs[i].Ok? && Collect(rs[i + 1..]).Ok? {
      assert vs + ([rs[i].value] + Collect(rs[i + 1..]).value)
        == (vs + [rs[i].value]) + Collect(rs[i + 1..]).value;
    }
  }

  /** The parse of each line, in order. */
  function ParseLines(lines: seq<string>): seq<Result<PasswdEntry, Panic>> {
    seq(|lines|, j requires 0 <= j < |lines| => ParseEntry(lines[j]))
  }

  /**
   * `find_and_parse_entry`: the parse of the first line, before any read
   * error, whose first field is exactly `name`; `Ok(None)` when there is none.
   */
  method FindAndParseEntry(name: string, lines: seq<Option<string>>) returns (r: Result<Option<PasswdEntry>, Panic>)
    ensures r == FindEntry(name, ReadablePrefix(lines))
  {
    ghost var p := ReadablePrefix(lines);
    var i := 0;
    while i < |lines|
      invariant 0 <= i <= |p|
      invariant FindEntry(name, p) == FindEntry(name, p[i..])
    {
      match lines[i] {
        case Some(s) =>
          assert i < |p| && p[i..][0] == s && p[i..][1..] == p[i + 1..];
          if Split(s)[0] == name {
            return Found(ParseEntry(s));
          }
        case None =>
          break;
      }
      i := i + 1;
    }
    assert p[i..] == [];
    return Ok(None);
  }

  /**
   * `find_and_parse_all`: one parsed entry per line read before the first
   * read error, in line order; a line that does not parse panics.
   */
  method FindAndParseAll(lines: seq<Option<string>>) returns (r: Result<seq<PasswdEntry>, Panic>)
    ensures r == Collect(ParseLines(ReadablePrefix(lines)))
  {
    ghost var rs := ParseLines(ReadablePrefix(lines));
    var entries: seq<PasswdEntry> := [];
    var i := 0;
    assert rs[0..] == rs;
    if Collect(rs).Ok? {
      assert [] + Collect(rs).value == Collect(rs).value;
    }
    while i < |lines|
      invariant 0 <= i <= |rs|
      invariant Collect(rs) == Prepend(entries, Collect(rs[i..]))
    {
      match lines[i] {
        case Some(s) =>
          assert i < |rs| && rs[i] == ParseEntry(s);
          CollectStep(rs, i, entries);
          match ParseEntry(s) {
            case Ok(e) =>
              entries := entries + [e];
            case Err(panic) =>
              return Err(panic);
          }
        case None =>
          break;
      }
      i := i + 1;
    }
    assert rs[i..] == [] && entries + [] == entries;
    return Ok(entries);
  }
}
