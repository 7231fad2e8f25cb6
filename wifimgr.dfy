/**
 * controller/wifimgr.py: the configuration portal's decisions. Form values
 * are percent-decoded by `unquote`; WiFi profiles are kept one per line as
 * `ssid;password[;ntp]`; a configure request either goes offline with a
 * manually set clock, is rejected, or connects and stores the profile; and
 * the request path selects the page.
 *
 * Text is a sequence of characters; a decoded byte `v` is the character with
 * code `v`, which is what `encode`/`decode("utf-8")` amount to on ASCII.
 */
module WifiMgr {
  import opened Wrappers
  import opened Text
  import TimeLogic

  // ---------------------------------------------------------------------------
  // Hexadecimal digits

  predicate IsHex(c: char) {
    ('0' <= c <= '9') || ('a' <= c <= 'f') || ('A' <= c <= 'F')
  }

  function HexDigitValue(c: char): (v: nat)
    requires IsHex(c)
    ensures v < 16
  {
    if '0' <= c <= '9' then c as int - '0' as int
    else if 'a' <= c <= 'f' then c as int - 'a' as int + 10
    else c as int - 'A' as int + 10
  }

  /** The upper-case digit browsers write after `%`. */
  function HexDigit(v: nat): (c: char)
    requires v < 16
    ensures IsHex(c) && HexDigitValue(c) == v
  {
    if v < 10 then ('0' as int + v) as char else ('A' as int + v - 10) as char
  }

  /** A character `int(_, 16)` consumes: a hexadecimal digit, or an underscore, which it skips. */
  predicate IsHexOrUnderscore(c: char) {
    IsHex(c) || c == '_'
  }

  /** The length of the longest prefix of hexadecimal digits and underscores. */
  function DigitRun(s: string): (k: nat)
    ensures k <= |s|
    ensures forall i :: 0 <= i < k ==> IsHexOrUnderscore(s[i])
    ensures k < |s| ==> !IsHexOrUnderscore(s[k])
    decreases |s|
  {
    if s != [] && IsHexOrUnderscore(s[0]) then 1 + DigitRun(s[1..]) else 0
  }

  /** The value of a run of hexadecimal digits, its underscores skipped. */
  function RunValue(s: string): nat
    requires forall i :: 0 <= i < |s| ==> IsHexOrUnderscore(s[i])
    decreases |s|
  {
    if s == [] then 0
    else
      var c := s[|s| - 1];
      assert IsHexOrUnderscore(c);
      if c == '_' then RunValue(s[..|s| - 1]) else RunValue(s[..|s| - 1]) * 16 + HexDigitValue(c)
  }

  /**
   * MicroPython's `int(p, 16)` on the (at most two) bytes after a `%`:
   * leading whitespace, one optional sign, a `0x`/`0X` prefix when at least
   * two characters remain, then a run of hexadecimal digits in which
   * underscores are skipped, then trailing whitespace. The run must consume
   * at least one character (so `_` alone reads as 0) and nothing else may
   * follow; otherwise the call raises, modelled as `None`.
   */
  function HexParse(p: string): Option<int> {
    var t := TrimLeft(p, IsSpace);
    var negative := t != [] && t[0] == '-';
    var u := if t != [] && (t[0] == '-' || t[0] == '+') then t[1..] else t;
    var w := if |u| > 1 && u[0] == '0' && (u[1] == 'x' || u[1] == 'X') then u[2..] else u;
    var k := DigitRun(w);
    if k == 0 || TrimLeft(w[k..], IsSpace) != [] then None
    else
      var magnitude: int := RunValue(w[..k]);
      Some(if negative then -magnitude else magnitude)
  }

  // ---------------------------------------------------------------------------
  // unquote

  /** `len(item[:2])`. */
  function PairLength(item: string): (n: nat)
    ensures n <= |item| && n <= 2 && (n < 2 ==> n == |item|)
  {
    if |item| < 2 then |item| else 2
  }

  /**
   * The loop body for one segment after a `%`: `bytes([int(item[:2], 16)]) +
   * item[2:]`, or, when that raises (no number, or one outside 0..255), the
   * `%` and the segment unchanged.
   */
  function DecodeItem(item: string): string {
    var n := PairLength(item);
    var v := HexParse(item[..n]);
    if v.Some? && 0 <= v.value < 256 then [v.value as char] + item[n..] else "%" + item
  }

  /** Every segment after the first, decoded in order. */
  function DecodeTail(items: seq<string>): string
    decreases |items|
  {
    if items == [] then [] else DecodeItem(items[0]) + DecodeTail(items[1..])
  }

  /** `unquote(string)`; `None` is Python's `None`. */
  function Unquote(input: Option<string>): string {
    if input.None? || input.value == [] then []
    else
      var res := Split(input.value, '%');
      if |res| == 1 then input.value else res[0] + DecodeTail(res[1..])
  }

  /** The loop of `unquote`, accumulating `s` segment by segment. */
  method UnquoteLoop(input: Option<string>) returns (s: string)
    ensures s == Unquote(input)
  {
    if input.None? || input.value == [] {
      return [];
    }
    var res := Split(input.value, '%');
    if |res| == 1 {
      return input.value;
    }
    s := DecodeSegments(res);
  }

  /** The `for item in res[1:]` loop of `unquote`, accumulating `s` segment by segment. */
  method DecodeSegments(res: seq<string>) returns (s: string)
    requires 1 <= |res|
    ensures s == res[0] + DecodeTail(res[1..])
  {
    s := res[0];
    var i := 1;
    while i < |res|
      invariant 1 <= i <= |res|
      invariant s + DecodeTail(res[i..]) == res[0] + DecodeTail(res[1..])
    {
      var piece := DecodeSegment(res[i]);
      DecodeTailStep(res, i);
      Regroup(s, piece, DecodeTail(res[i + 1..]), res[0] + DecodeTail(res[1..]));
      s := s + piece;
      i := i + 1;
    }
    assert res[i..] == [];
    assert s + [] == s;
  }

  lemma Associative(a: string, b: string, c: string)
    ensures (a + b) + c == a + (b + c)
  {
  }

  /** The body of the loop in `unquote`: the `try` and its `except`. */
  method DecodeSegment(item: string) returns (piece: string)
    ensures piece == DecodeItem(item)
  {
    var n := if |item| < 2 then |item| else 2;
    var v := HexParse(item[..n]);
    if v.Some? && 0 <= v.value < 256 {
      piece := [v.value as char] + item[n..];
    } else {
      piece := "%" + item;
    }
  }

  /** Regrouping a concatenation whose value is known. */
  lemma Regroup(a: string, b: string, c: string, whole: string)
    requires a + (b + c) == whole
    ensures (a + b) + c == whole
  {
    Associative(a, b, c);
  }

  lemma DecodeTailStep(items: seq<string>, i: nat)
    requires i < |items|
    ensures DecodeTail(items[i..]) == DecodeItem(items[i]) + DecodeTail(items[i + 1..])
  {
    assert items[i..][0] == items[i] && items[i..][1..] == items[i + 1..];
  }

  /** What `unquote` computes, stated without its early returns. */
  function UnquoteAll(s: string): string {
    Split(s, '%')[0] + DecodeTail(Split(s, '%')[1..])
  }

  /** The early returns agree with the general case: `unquote` is `UnquoteAll` on every string. */
  lemma UnquoteIsUnquoteAll(s: string)
    ensures Unquote(Some(s)) == UnquoteAll(s)
  {
    var res := Split(s, '%');
    if s == [] {
      assert res == [[]];
    } else if |res| == 1 {
      SplitSingle(s, '%');
    }
  }

  /** Empty or `None` input gives `b''`; text without `%` comes back unchanged (so `+` stays `+`). */
  lemma UnquotePlain(s: string)
    ensures Unquote(None) == [] && Unquote(Some([])) == []
    ensures '%' !in s ==> Unquote(Some(s)) == s
  {
    if '%' !in s && s != [] {
      SplitNoSeparator(s, '%');
    }
  }

  /** Two hexadecimal digits are read as one number, the first digit the high one. */
  lemma HexPairParses(h: char, l: char)
    requires IsHex(h) && IsHex(l)
    ensures HexParse([h, l]) == Some(HexDigitValue(h) * 16 + HexDigitValue(l))
  {
    var p := [h, l];
    TrimLeftStops(p, IsSpace);
    assert p[0] != '-' && p[0] != '+' && p[1] != 'x' && p[1] != 'X';
    assert DigitRun(p) == 2;
    assert p[..2] == p && p[2..] == [];
    assert p[..1] == [h] && [h][..0] == [];
    assert RunValue([h]) == HexDigitValue(h);
    assert RunValue(p) == RunValue([h]) * 16 + HexDigitValue(l);
  }

  /** `%` and two hexadecimal digits become that one byte; the rest of the segment is kept. */
  lemma DecodeHexPair(h: char, l: char, rest: string)
    requires IsHex(h) && IsHex(l)
    ensures DecodeItem([h, l] + rest) == [(HexDigitValue(h) * 16 + HexDigitValue(l)) as char] + rest
  {
    var item := [h, l] + rest;
    assert item[..2] == [h, l] && item[2..] == rest;
    HexPairParses(h, l);
  }

  /** A trailing underscore is skipped: `1_` reads as 1. */
  lemma HexParseTrailingUnderscore()
    ensures HexParse("1_") == Some(1)
  {
    var p := "1_";
    TrimLeftStops(p, IsSpace);
    assert DigitRun(p) == 2;
    assert p[..2] == p && p[2..] == [] && p[..1] == "1" && "1"[..0] == [];
  }

  /** A leading underscore is skipped: `_1` reads as 1. */
  lemma HexParseLeadingUnderscore()
    ensures HexParse("_1") == Some(1)
  {
    var p := "_1";
    TrimLeftStops(p, IsSpace);
    assert DigitRun(p) == 2;
    assert p[..2] == p && p[2..] == [] && p[..1] == "_" && "_"[..0] == [];
  }

  /** An underscore alone is a run of one character with no digit: it reads as 0. */
  lemma HexParseUnderscoreAlone()
    ensures HexParse("_") == Some(0)
  {
    var p := "_";
    TrimLeftStops(p, IsSpace);
    assert DigitRun(p) == 1;
    assert p[..1] == p && p[1..] == [] && p[..0] == [];
  }

  /** A bare `0x` prefix leaves no digit: no number. */
  lemma HexParseBarePrefix()
    ensures HexParse("0x") == None
  {
    var p := "0x";
    TrimLeftStops(p, IsSpace);
    assert p[2..] == [];
  }

  /** A minus sign negates: `-1` reads as -1. */
  lemma HexParseNegative()
    ensures HexParse("-1") == Some(-1)
  {
    var p := "-1";
    TrimLeftStops(p, IsSpace);
    var u := p[1..];
    assert u == "1" && DigitRun(u) == 1;
    assert u[..1] == u && u[1..] == [] && u[..0] == [];
    assert RunValue(u) == 1;
    assert TrimLeft(u[1..], IsSpace) == [];
  }

  /** So `%1_` decodes to byte 1, whatever follows. */
  lemma DecodeTrailingUnderscore(rest: string)
    ensures DecodeItem("1_" + rest) == [1 as char] + rest
  {
    var item := "1_" + rest;
    assert PairLength(item) == 2 && item[..2] == "1_" && item[2..] == rest;
    HexParseTrailingUnderscore();
  }

  /** And `%-1`, a number outside 0..255, keeps its `%`. */
  lemma DecodeNegative(rest: string)
    ensures DecodeItem("-1" + rest) == "%-1" + rest
  {
    var item := "-1" + rest;
    assert PairLength(item) == 2 && item[..2] == "-1";
    HexParseNegative();
  }

  /**
   * A segment that does not begin like a number (empty, or a first character
   * that is no hexadecimal digit, underscore, sign or whitespace) keeps the
   * literal `%`.
   */
  lemma DecodeNonHex(item: string)
    requires item == [] || (!IsHexOrUnderscore(item[0]) && !IsSpace(item[0]) && item[0] != '+' && item[0] != '-')
    ensures DecodeItem(item) == "%" + item
  {
    if item != [] {
      var p := item[..PairLength(item)];
      assert p[0] == item[0];
      TrimLeftStops(p, IsSpace);
      assert DigitRun(p) == 0;
    }
  }

  // ---------------------------------------------------------------------------
  // Percent-encoding, the partner of unquote

  /** Characters that fit in one byte. */
  predicate Octets(x: string) {
    forall i :: 0 <= i < |x| ==> x[i] as int < 256
  }

  function Escape(c: char): string
    requires c as int < 256
  {
    ['%', HexDigit(c as int / 16), HexDigit(c as int % 16)]
  }

  /** Percent-encoding: the characters `keep` accepts as they are, every other one as `%HH`. */
  function Encode(x: string, keep: char -> bool): string
    requires Octets(x)
    decreases |x|
  {
    if x == [] then [] else (if keep(x[0]) then [x[0]] else Escape(x[0])) + Encode(x[1..], keep)
  }

  /** A character other than `%` in front of the text comes through `unquote` as it is. */
  lemma UnquoteKept(c: char, t: string)
    requires c != '%'
    ensures UnquoteAll([c] + t) == [c] + UnquoteAll(t)
  {
    SplitPrefix([c], t, '%');
  }

  /** A leading `%` makes every segment of the rest a decoded one. */
  lemma UnquoteAfterPercent(u: string)
    ensures UnquoteAll(['%'] + u) == DecodeItem(Split(u, '%')[0]) + DecodeTail(Split(u, '%')[1..])
  {
    SplitAtSeparator([], u, '%');
    assert [] + ['%'] + u == ['%'] + u;
    var items := Split(u, '%');
    assert DecodeTail(items) == DecodeItem(items[0]) + DecodeTail(items[1..]);
  }

  /** `%HH` in front of the text becomes the byte `HH`. */
  lemma UnquoteEscaped(h: char, l: char, t: string)
    requires IsHex(h) && IsHex(l)
    ensures UnquoteAll(['%', h, l] + t) == [(HexDigitValue(h) * 16 + HexDigitValue(l)) as char] + UnquoteAll(t)
  {
    var parts := Split(t, '%');
    var u := [h, l] + t;
    var c := [(HexDigitValue(h) * 16 + HexDigitValue(l)) as char];
    assert ['%', h, l] + t == ['%'] + u;
    SplitPrefix([h, l], t, '%');
    var up := Split(u, '%');
    assert up[0] == [h, l] + parts[0] && up[1..] == parts[1..];
    UnquoteAfterPercent(u);
    DecodeHexPair(h, l, parts[0]);
    assert UnquoteAll(['%', h, l] + t) == (c + parts[0]) + DecodeTail(parts[1..]);
    Associative(c, parts[0], DecodeTail(parts[1..]));
  }

  /** `unquote` undoes percent-encoding whenever `%` itself is escaped. */
  lemma {:induction false} UnquoteEncode(x: string, keep: char -> bool)
    requires Octets(x) && !keep('%')
    ensures UnquoteAll(Encode(x, keep)) == x
    decreases |x|
  {
    if x != [] {
      var c := x[0];
      var tail := Encode(x[1..], keep);
      UnquoteEncode(x[1..], keep);
      if keep(c) {
        UnquoteKept(c, tail);
      } else {
        var h, l := HexDigit(c as int / 16), HexDigit(c as int % 16);
        assert Encode(x, keep) == ['%', h, l] + tail;
        UnquoteEscaped(h, l, tail);
        assert (HexDigitValue(h) * 16 + HexDigitValue(l)) as char == c;
      }
      assert x == [c] + x[1..];
    }
  }

  /** Browsers escape every character but letters, digits and `*-._`, and send a space as `+`. */
  predicate FormSafe(c: char) {
    ('a' <= c <= 'z') || ('A' <= c <= 'Z') || ('0' <= c <= '9') || c == '*' || c == '-' || c == '.' || c == '_'
  }

  /** `application/x-www-form-urlencoded`, as a browser writes a posted form value. */
  function FormEncode(x: string): string
    requires Octets(x)
    decreases |x|
  {
    if x == [] then []
    else (if x[0] == ' ' then "+" else if FormSafe(x[0]) then [x[0]] else Escape(x[0])) + FormEncode(x[1..])
  }

  /** Every `+` read as a space, as form decoding does before the escapes. */
  function PlusToSpace(s: string): (r: string)
    ensures |r| == |s|
    decreases |s|
  {
    if s == [] then [] else [if s[0] == '+' then ' ' else s[0]] + PlusToSpace(s[1..])
  }

  /** The form decoding `handle_configure` needs: `+` is a space, then the escapes. */
  function FormUnquote(s: string): string {
    Unquote(Some(PlusToSpace(s)))
  }

  /** A space typed into the form arrives as `+`, and `unquote` leaves it a `+`. */
  lemma PlusNotDecoded()
    ensures FormEncode("a b") == "a+b"
    ensures Unquote(Some("a+b")) == "a+b" != "a b"
  {
    var x := "a b";
    assert x[1..] == " b" && x[1..][1..] == "b" && x[1..][1..][1..] == [];
    assert FormEncode("b") == "b";
    assert FormEncode(" b") == "+b";
    UnquotePlain("a+b");
  }

  lemma {:induction false} PlusToSpaceAppend(s: string, t: string)
    ensures PlusToSpace(s + t) == PlusToSpace(s) + PlusToSpace(t)
    decreases |s|
  {
    if s != [] {
      var c := if s[0] == '+' then ' ' else s[0];
      assert (s + t)[0] == s[0] && (s + t)[1..] == s[1..] + t;
      PlusToSpaceAppend(s[1..], t);
      Associative([c], PlusToSpace(s[1..]), PlusToSpace(t));
    } else {
      assert s + t == t;
    }
  }

  lemma {:induction false} PlusToSpaceNoPlus(s: string)
    requires '+' !in s
    ensures PlusToSpace(s) == s
    decreases |s|
  {
    if s != [] {
      PlusToSpaceNoPlus(s[1..]);
      assert s == [s[0]] + s[1..];
    }
  }

  lemma {:induction false} PlusToSpaceOfFormEncode(x: string)
    requires Octets(x)
    ensures PlusToSpace(FormEncode(x)) == Encode(x, c => c == ' ' || FormSafe(c))
    decreases |x|
  {
    if x != [] {
      var head := if x[0] == ' ' then "+" else if FormSafe(x[0]) then [x[0]] else Escape(x[0]);
      assert FormEncode(x) == head + FormEncode(x[1..]);
      PlusToSpaceAppend(head, FormEncode(x[1..]));
      PlusToSpaceOfFormEncode(x[1..]);
      if x[0] == ' ' {
        assert PlusToSpace(head) == " ";
      } else {
        assert '+' !in head;
        PlusToSpaceNoPlus(head);
      }
    }
  }

  /** With `+` read as a space first, every posted value decodes to what was typed. */
  lemma FormRoundTrip(x: string)
    requires Octets(x)
    ensures FormUnquote(FormEncode(x)) == x
  {
    PlusToSpaceOfFormEncode(x);
    UnquoteIsUnquoteAll(PlusToSpace(FormEncode(x)));
    UnquoteEncode(x, c => c == ' ' || FormSafe(c));
  }

  // ---------------------------------------------------------------------------
  // The profile file

  datatype Profile = Profile(password: string, ntp: Option<string>)

  /** The profiles dictionary: (ssid, profile) entries in insertion order. */
  type Profiles = seq<(string, Profile)>

  function Keys(d: Profiles): (ks: seq<string>)
    ensures |ks| == |d|
    decreases |d|
  {
    if d == [] then [] else [d[0].0] + Keys(d[1..])
  }

  /** No ssid occurs twice, as in a dictionary. */
  predicate DistinctKeys(d: Profiles)
    decreases |d|
  {
    d == [] || (d[0].0 !in Keys(d[1..]) && DistinctKeys(d[1..]))
  }

  /** `profiles.get(ssid)`. */
  function Get(d: Profiles, ssid: string): (r: Option<Profile>)
    ensures r.Some? ==> ssid in Keys(d)
    decreases |d|
  {
    if d == [] then None else if d[0].0 == ssid then Some(d[0].1) else Get(d[1..], ssid)
  }

  /** `profiles[ssid] = profile`: replaces the entry in place, or appends a new one. */
  function Put(d: Profiles, ssid: string, p: Profile): (d': Profiles)
    ensures |d'| == if ssid in Keys(d) then |d| else |d| + 1
    decreases |d|
  {
    if d == [] then [(ssid, p)]
    else if d[0].0 == ssid then [(ssid, p)] + d[1..]
    else [d[0]] + Put(d[1..], ssid, p)
  }

  /** The assignment adds the ssid to the keys and keeps them distinct. */
  lemma {:induction false} PutKeys(d: Profiles, ssid: string, p: Profile)
    requires DistinctKeys(d)
    ensures DistinctKeys(Put(d, ssid, p))
    ensures forall k :: k in Keys(Put(d, ssid, p)) <==> k in Keys(d) || k == ssid
    decreases |d|
  {
    var d' := Put(d, ssid, p);
    if d == [] {
      assert d'[1..] == [];
    } else if d[0].0 == ssid {
      assert d'[0] == (ssid, p) && d'[1..] == d[1..];
    } else {
      PutKeys(d[1..], ssid, p);
      assert d'[0] == d[0] && d'[1..] == Put(d[1..], ssid, p);
    }
  }

  /** After the assignment the ssid maps to the new profile and every other ssid to its old one. */
  lemma {:induction false} PutGet(d: Profiles, ssid: string, p: Profile, k: string)
    ensures Get(Put(d, ssid, p), k) == if k == ssid then Some(p) else Get(d, k)
    decreases |d|
  {
    var d' := Put(d, ssid, p);
    if d == [] {
    } else if d[0].0 == ssid {
      assert d'[0] == (ssid, p) && d'[1..] == d[1..];
    } else {
      PutGet(d[1..], ssid, p, k);
      assert d'[0] == d[0] && d'[1..] == Put(d[1..], ssid, p);
    }
  }

  /** Assigning a new ssid appends its entry. */
  lemma {:induction false} PutAppends(d: Profiles, ssid: string, p: Profile)
    requires ssid !in Keys(d)
    ensures Put(d, ssid, p) == d + [(ssid, p)]
    decreases |d|
  {
    if d != [] {
      assert Keys(d) == [d[0].0] + Keys(d[1..]);
      PutAppends(d[1..], ssid, p);
      assert [d[0]] + (d[1..] + [(ssid, p)]) == d + [(ssid, p)];
    }
  }

  lemma {:induction false} KeysSnoc(d: Profiles, e: (string, Profile))
    ensures Keys(d + [e]) == Keys(d) + [e.0]
    decreases |d|
  {
    if d == [] {
      assert ([] + [e])[1..] == [];
    } else {
      assert (d + [e])[0] == d[0] && (d + [e])[1..] == d[1..] + [e];
      KeysSnoc(d[1..], e);
    }
  }

  /** A dictionary with distinct keys stays one without its last entry, which no earlier entry shares. */
  lemma {:induction false} DistinctSnoc(d: Profiles, e: (string, Profile))
    requires DistinctKeys(d + [e])
    ensures DistinctKeys(d) && e.0 !in Keys(d)
    decreases |d|
  {
    if d != [] {
      assert (d + [e])[0] == d[0] && (d + [e])[1..] == d[1..] + [e];
      KeysSnoc(d[1..], e);
      DistinctSnoc(d[1..], e);
    }
  }

  /** One line of `read_profiles`: strip newlines, split on `;`, keep lines of two or more parts. */
  function ParseLine(line: string): (entry: Option<(string, Profile)>)
    ensures entry.Some? <==> |Split(StripBy(line, c => c == '\n'), ';')| >= 2
  {
    var parts := Split(StripBy(line, c => c == '\n'), ';');
    if |parts| >= 2 then Some((parts[0], Profile(parts[1], if |parts| > 2 then Some(parts[2]) else None)))
    else None
  }

  /** The profiles read from a file's lines, later lines overriding earlier ones. */
  function ParseProfiles(lines: seq<string>): (d: Profiles)
    ensures DistinctKeys(d)
    decreases |lines|
  {
    if lines == [] then []
    else
      var d := ParseProfiles(lines[..|lines| - 1]);
      match ParseLine(lines[|lines| - 1])
      case Some((ssid, p)) => PutKeys(d, ssid, p); Put(d, ssid, p)
      case None => d
  }

  /** `read_profiles()` over what `readlines()` gives; `None` is a file that cannot be opened (`OSError`), which gives `{}`. */
  function ReadProfiles(file: Option<seq<string>>): (d: Profiles)
    ensures DistinctKeys(d)
  {
    if file.None? then [] else ParseProfiles(file.value)
  }

  /** The loop of `read_profiles`. */
  method ReadProfilesLoop(file: Option<seq<string>>) returns (profiles: Profiles)
    ensures profiles == ReadProfiles(file)
  {
    if file.None? {
      return [];
    }
    var lines := file.value;
    profiles := [];
    var i := 0;
    while i < |lines|
      invariant 0 <= i <= |lines|
      invariant profiles == ParseProfiles(lines[..i])
    {
      assert lines[..i + 1][..i] == lines[..i];
      var parts := Split(StripBy(lines[i], c => c == '\n'), ';');
      if |parts| >= 2 {
        var ntp := if |parts| > 2 then Some(parts[2]) else None;
        profiles := Put(profiles, parts[0], Profile(parts[1], ntp));
      }
      i := i + 1;
    }
    assert lines[..i] == lines;
  }

  /** Some line of the file names a profile. */
  predicate AnyProfileLine(lines: seq<string>)
    decreases |lines|
  {
    lines != [] && (ParseLine(lines[|lines| - 1]).Some? || AnyProfileLine(lines[..|lines| - 1]))
  }

  /** A line with fewer than two fields changes nothing. */
  lemma ShortLineIgnored(lines: seq<string>, line: string)
    requires |Split(StripBy(line, c => c == '\n'), ';')| < 2
    ensures ParseProfiles(lines + [line]) == ParseProfiles(lines)
  {
    assert (lines + [line])[..|lines|] == lines;
  }

  /** A later line for an ssid overrides every earlier one and leaves the other ssids alone. */
  lemma LaterLineWins(lines: seq<string>, line: string, k: string)
    requires ParseLine(line).Some?
    ensures var (ssid, p) := ParseLine(line).value;
      Get(ParseProfiles(lines + [line]), k) == if k == ssid then Some(p) else Get(ParseProfiles(lines), k)
  {
    assert (lines + [line])[..|lines|] == lines;
    var (ssid, p) := ParseLine(line).value;
    PutGet(ParseProfiles(lines), ssid, p, k);
  }

  /** `has_profiles()`: the file can be read and some line of it names a profile. */
  function HasProfiles(file: Option<seq<string>>): (has: bool)
    ensures has <==> file.Some? && AnyProfileLine(file.value)
  {
    if file.None? then false
    else
      ParsedSomething(file.value);
      |ReadProfiles(file)| > 0
  }

  /** The last line adds a profile exactly when it parses. */
  lemma ParsedStep(lines: seq<string>)
    requires lines != []
    ensures |ParseProfiles(lines)| > 0 <==> |ParseProfiles(lines[..|lines| - 1])| > 0 || ParseLine(lines[|lines| - 1]).Some?
  {
  }

  lemma {:induction false} ParsedSomething(lines: seq<string>)
    ensures |ParseProfiles(lines)| > 0 <==> AnyProfileLine(lines)
    decreases |lines|
  {
    if lines != [] {
      ParsedSomething(lines[..|lines| - 1]);
      ParsedStep(lines);
    }
  }

  /** A line `write_profiles` emits: the ntp field only when it is truthy. */
  function ProfileLine(ssid: string, p: Profile): string {
    if p.ntp.Some? && p.ntp.value != [] then ssid + ";" + p.password + ";" + p.ntp.value + "\n"
    else ssid + ";" + p.password + "\n"
  }

  function ProfileLines(d: Profiles): (lines: seq<string>)
    ensures |lines| == |d|
    decreases |d|
  {
    if d == [] then [] else ProfileLines(d[..|d| - 1]) + [ProfileLine(d[|d| - 1].0, d[|d| - 1].1)]
  }

  /** `''.join(lines)`. */
  function Concat(lines: seq<string>): string
    decreases |lines|
  {
    if lines == [] then [] else lines[0] + Concat(lines[1..])
  }

  /** `write_profiles`: the new file contents, one line per profile in dictionary order. */
  method WriteProfiles(profiles: Profiles) returns (contents: string)
    ensures contents == Concat(ProfileLines(profiles))
  {
    var lines: seq<string> := [];
    var i := 0;
    while i < |profiles|
      invariant 0 <= i <= |profiles|
      invariant lines == ProfileLines(profiles[..i])
    {
      assert profiles[..i + 1][..i] == profiles[..i];
      var (ssid, data) := profiles[i];
      if data.ntp.Some? && data.ntp.value != [] {
        lines := lines + [ssid + ";" + data.password + ";" + data.ntp.value + "\n"];
      } else {
        lines := lines + [ssid + ";" + data.password + "\n"];
      }
      i := i + 1;
    }
    assert profiles[..i] == profiles;
    contents := Concat(lines);
  }

  /** Length of the first line of `s`, its newline included. */
  function FirstLineLength(s: string): (n: nat)
    requires s != []
    ensures 1 <= n <= |s|
    decreases |s|
  {
    if s[0] == '\n' || |s| == 1 then 1 else 1 + FirstLineLength(s[1..])
  }

  /** `f.readlines()`: the lines of the file, each with its newline except perhaps the last. */
  function ReadLines(s: string): seq<string>
    decreases |s|
  {
    if s == [] then [] else [s[..FirstLineLength(s)]] + ReadLines(s[FirstLineLength(s)..])
  }

  /** A field the file can hold: no separator and no newline. */
  predicate Plain(field: string) {
    ';' !in field && '\n' !in field
  }

  /** An entry the file can represent: plain fields, and an ntp that is a non-empty string or absent. */
  predicate StorableEntry(ssid: string, p: Profile) {
    Plain(ssid) && Plain(p.password) && (p.ntp.Some? ==> p.ntp.value != [] && Plain(p.ntp.value))
  }

  predicate Storable(d: Profiles) {
    forall i :: 0 <= i < |d| ==> StorableEntry(d[i].0, d[i].1)
  }

  /** A whole line: a newline at the end and nowhere else. */
  predicate IsLine(l: string) {
    |l| >= 1 && l[|l| - 1] == '\n' && '\n' !in l[..|l| - 1]
  }

  lemma {:induction false} FirstLineOf(l: string, t: string)
    requires '\n' !in l
    ensures FirstLineLength(l + "\n" + t) == |l| + 1
    decreases |l|
  {
    if l != [] {
      assert (l + "\n" + t)[1..] == l[1..] + "\n" + t;
      FirstLineOf(l[1..], t);
    } else {
      assert (l + "\n" + t)[0] == '\n';
    }
  }

  /** Reading back what was written gives the written lines. */
  lemma {:induction false} ReadLinesConcat(lines: seq<string>)
    requires forall i :: 0 <= i < |lines| ==> IsLine(lines[i])
    ensures ReadLines(Concat(lines)) == lines
    decreases |lines|
  {
    if lines != [] {
      var l := lines[0];
      assert IsLine(l);
      var body := l[..|l| - 1];
      assert l == body + "\n";
      var t := Concat(lines[1..]);
      FirstLineOf(body, t);
      var s := body + "\n" + t;
      assert Concat(lines) == s;
      assert s[..|l|] == l && s[|l|..] == t;
      ReadLinesConcat(lines[1..]);
      assert lines == [l] + lines[1..];
    }
  }

  /** The line a storable entry is written as, without its newline. */
  function EntryFields(ssid: string, p: Profile): (fields: seq<string>)
    ensures |fields| >= 2
  {
    if p.ntp.Some? then [ssid, p.password, p.ntp.value] else [ssid, p.password]
  }

  lemma EntryLine(ssid: string, p: Profile)
    requires StorableEntry(ssid, p)
    ensures ProfileLine(ssid, p) == Join(EntryFields(ssid, p), ';') + "\n"
    ensures '\n' !in Join(EntryFields(ssid, p), ';')
  {
    var fields := EntryFields(ssid, p);
    if p.ntp.Some? {
      assert fields[1..][1..] == [p.ntp.value];
      assert Join(fields[1..], ';') == p.password + ";" + p.ntp.value;
      assert Join(fields, ';') == ssid + ";" + (p.password + ";" + p.ntp.value);
      assert ssid + ";" + (p.password + ";" + p.ntp.value) == ssid + ";" + p.password + ";" + p.ntp.value;
    } else {
      assert fields[1..] == [p.password];
      assert Join(fields, ';') == ssid + ";" + p.password;
    }
  }

  lemma StripNewline(body: string)
    requires '\n' !in body
    ensures StripBy(body + "\n", c => c == '\n') == body
  {
    var s := body + "\n";
    var nl := c => c == '\n';
    assert s[..|s| - 1] == body;
    if body == [] {
      assert TrimLeft(s, nl) == TrimLeft(s[1..], nl);
      assert s[1..] == [];
    } else {
      assert s[0] == body[0];
      TrimLeftStops(s, nl);
      TrimRightStops(body, nl);
    }
  }

  /** A stored line parses back into its entry. */
  lemma ParseProfileLine(ssid: string, p: Profile)
    requires StorableEntry(ssid, p)
    ensures ParseLine(ProfileLine(ssid, p)) == Some((ssid, p))
  {
    var fields := EntryFields(ssid, p);
    EntryLine(ssid, p);
    StripNewline(Join(fields, ';'));
    SplitJoin(fields, ';');
  }

  lemma {:induction false} ProfileLinesShape(d: Profiles)
    requires Storable(d)
    ensures forall i :: 0 <= i < |ProfileLines(d)| ==> IsLine(ProfileLines(d)[i])
    decreases |d|
  {
    if d != [] {
      ProfileLinesShape(d[..|d| - 1]);
      var (ssid, p) := d[|d| - 1];
      assert StorableEntry(ssid, p);
      var l := ProfileLine(ssid, p);
      EntryLine(ssid, p);
      var body := Join(EntryFields(ssid, p), ';');
      assert l[..|l| - 1] == body;
    }
  }

  /** Lines read in order rebuild a dictionary whose keys were distinct. */
  lemma {:induction false} ParseProfileLines(d: Profiles)
    requires DistinctKeys(d) && Storable(d)
    ensures ParseProfiles(ProfileLines(d)) == d
    decreases |d|
  {
    if d != [] {
      var init := d[..|d| - 1];
      var e := d[|d| - 1];
      assert d == init + [e];
      DistinctSnoc(init, e);
      var lines := ProfileLines(d);
      assert lines[..|lines| - 1] == ProfileLines(init);
      ParseProfileLines(init);
      ParseProfileLine(e.0, e.1);
      PutAppends(init, e.0, e.1);
    }
  }

  /** `read_profiles` after `write_profiles` returns the same profiles. */
  lemma ProfilesRoundTrip(d: Profiles)
    requires DistinctKeys(d) && Storable(d)
    ensures ReadProfiles(Some(ReadLines(Concat(ProfileLines(d))))) == d
  {
    ProfileLinesShape(d);
    ReadLinesConcat(ProfileLines(d));
    ParseProfileLines(d);
  }

  /**
   * `get_connected_ntp()`: the ntp field of the connected network's profile.
   * `essid` is `config('essid')`, `None` when that raises.
   */
  function ConnectedNtp(connected: bool, essid: Option<string>, file: Option<seq<string>>): (ntp: Option<string>)
    ensures ntp.Some? ==> connected && essid.Some? && Get(ReadProfiles(file), essid.value).Some?
    ensures connected && essid.Some? && Get(ReadProfiles(file), essid.value).Some? ==>
              ntp == Get(ReadProfiles(file), essid.value).value.ntp
  {
    if !connected || essid.None? then None
    else
      match Get(ReadProfiles(file), essid.value)
      case Some(p) => p.ntp
      case None => None
  }

  /**
   * After a configure that connected and rewrote the file, `get_connected_ntp`
   * on the network just joined returns the host typed into the form (`None`
   * when it was left empty), and on any other network the host stored before.
   * The stored values and the new entry must be storable.
   */
  lemma ConfiguredNtp(file: Option<seq<string>>, form: Form, essid: string)
    requires var (ssid, password) := Credentials(form);
      Storable(ReadProfiles(file)) && StorableEntry(ssid, Profile(password, CustomNtp(form)))
    ensures var (ssid, password) := Credentials(form);
      var written := Concat(ProfileLines(Put(ReadProfiles(file), ssid, Profile(password, CustomNtp(form)))));
      ConnectedNtp(true, Some(essid), Some(ReadLines(written)))
        == if essid == ssid then CustomNtp(form) else ConnectedNtp(true, Some(essid), file)
  {
    var (ssid, password) := Credentials(form);
    ConfigureStores(ReadProfiles(file), ssid, Profile(password, CustomNtp(form)), essid);
  }

  // ---------------------------------------------------------------------------
  // handle_configure

  /**
   * What the request's regular expressions found: the raw `ssid` and
   * `password` groups, the raw `custom_ntp` group, whether `set_time=1` is
   * present, and the six time fields (`None` when any is missing).
   */
  datatype Form = Form(wifi: Option<(string, string)>, customNtp: Option<string>, setTime: bool,
                       fields: Option<(nat, nat, nat, nat, nat, nat)>)

  datatype Outcome = Offline | Rejected | Connected | ConnectFailed

  function Credentials(form: Form): (string, string) {
    if form.wifi.Some? then (Unquote(Some(form.wifi.value.0)), Unquote(Some(form.wifi.value.1))) else ("", "")
  }

  /** The decoded custom NTP host; an empty one counts as none. */
  function CustomNtp(form: Form): (ntp: Option<string>)
    ensures ntp != Some([])
    ensures ntp.Some? <==> form.customNtp.Some? && Unquote(form.customNtp) != []
    ensures ntp.Some? ==> ntp.value == Unquote(form.customNtp)
  {
    if form.customNtp.Some? then
      var n := Unquote(form.customNtp);
      if n == [] then None else Some(n)
    else None
  }

  /** Whether the clock was set by hand: requested, all six fields present, and `set_manual_time` succeeding. */
  predicate ManualTimeSet(form: Form, dsWrites: bool, rtcWrites: bool) {
    form.setTime && form.fields.Some? && form.fields.value.1 <= 12 && dsWrites && rtcWrites
  }

  /**
   * The decision after decoding: no ssid means offline if the clock was
   * set by hand and a 400 otherwise; with an ssid, connected or not.
   */
  function Decide(ssid: string, timeSet: bool, connects: bool): (o: Outcome)
    ensures ssid == [] ==> (o == Offline <==> timeSet) && (o == Rejected <==> !timeSet)
    ensures ssid != [] ==> (o == Connected <==> connects) && (o == ConnectFailed <==> !connects)
  {
    if ssid == [] then (if timeSet then Offline else Rejected)
    else if connects then Connected else ConnectFailed
  }

  /** The value `handle_configure` returns: whether the portal loop may end. */
  predicate Handled(o: Outcome) {
    o == Offline || o == Connected
  }

  /** The HTTP status of the response. */
  function Status(o: Outcome): int {
    if o == Rejected then 400 else 200
  }

  /** The decoding part of `handle_configure`. */
  method DecodeForm(form: Form) returns (ssid: string, password: string, customNtp: Option<string>)
    ensures (ssid, password) == Credentials(form) && customNtp == CustomNtp(form)
  {
    ssid, password := "", "";
    if form.wifi.Some? {
      ssid := UnquoteLoop(Some(form.wifi.value.0));
      password := UnquoteLoop(Some(form.wifi.value.1));
    }
    customNtp := None;
    if form.customNtp.Some? {
      var n := UnquoteLoop(form.customNtp);
      customNtp := if |n| == 0 then None else Some(n);
    }
  }

  /** The time part of `handle_configure`: `set_manual_time` with the six fields when requested. */
  method SetTimeFromForm(clocks: TimeLogic.Clocks, form: Form, dsWrites: bool, rtcWrites: bool) returns (timeSet: bool)
    modifies clocks`internal, clocks`durable
    ensures timeSet == ManualTimeSet(form, dsWrites, rtcWrites)
    ensures !(form.setTime && form.fields.Some?) ==> unchanged(clocks)
    ensures form.setTime && form.fields.Some? ==>
      var (year, month, day, hour, minute, second) := form.fields.value;
      && clocks.internal == (if timeSet
                             then TimeLogic.ManualRtcTime(year, month, day, hour, minute, second) else old(clocks.internal))
      && clocks.durable == (if month <= 12 && dsWrites
                            then TimeLogic.ManualDurableTime(year, month, day, hour, minute, second) else old(clocks.durable))
  {
    timeSet := false;
    if form.setTime && form.fields.Some? {
      var (year, month, day, hour, minute, second) := form.fields.value;
      timeSet := clocks.SetManualTime(year, month, day, hour, minute, second, dsWrites, rtcWrites);
    }
  }

  /**
   * `handle_configure` past the regular expressions. `connects` is what
   * `do_connect` achieves, `file` the profile file's lines, `dsWrites` and
   * `rtcWrites` whether the clock chips accept the manual time. Returns the
   * outcome and, after a connection, the new contents of the profile file.
   */
  method HandleConfigure(clocks: TimeLogic.Clocks, form: Form, connects: bool, file: Option<seq<string>>,
                         dsWrites: bool, rtcWrites: bool)
    returns (outcome: Outcome, written: Option<string>)
    modifies clocks`internal, clocks`durable
    ensures !(form.setTime && form.fields.Some?) ==> unchanged(clocks)
    ensures form.setTime && form.fields.Some? ==>
      var (year, month, day, hour, minute, second) := form.fields.value;
      && clocks.internal == (if ManualTimeSet(form, dsWrites, rtcWrites)
                             then TimeLogic.ManualRtcTime(year, month, day, hour, minute, second) else old(clocks.internal))
      && clocks.durable == (if month <= 12 && dsWrites
                            then TimeLogic.ManualDurableTime(year, month, day, hour, minute, second) else old(clocks.durable))
    ensures var (ssid, password) := Credentials(form);
      && outcome == Decide(ssid, ManualTimeSet(form, dsWrites, rtcWrites), connects)
      && written == if outcome == Connected
                    then Some(Concat(ProfileLines(Put(ReadProfiles(file), ssid, Profile(password, CustomNtp(form))))))
                    else None
  {
    var ssid, password, customNtp := DecodeForm(form);
    var timeSet := SetTimeFromForm(clocks, form, dsWrites, rtcWrites);
    written := None;
    if |ssid| == 0 {
      outcome := if timeSet then Offline else Rejected;
      return;
    }
    if connects {
      var profiles := ReadProfilesLoop(file);
      profiles := Put(profiles, ssid, Profile(password, customNtp));
      var contents := WriteProfiles(profiles);
      written := Some(contents);
      outcome := Connected;
    } else {
      outcome := ConnectFailed;
    }
  }

  /**
   * After a successful configure, reading the file back gives the new
   * profile for the ssid and the old profile for every other ssid, provided
   * the fields can be stored.
   */
  lemma ConfigureStores(d: Profiles, ssid: string, p: Profile, k: string)
    requires DistinctKeys(d) && Storable(d) && StorableEntry(ssid, p)
    ensures Get(ReadProfiles(Some(ReadLines(Concat(ProfileLines(Put(d, ssid, p)))))), k)
         == if k == ssid then Some(p) else Get(d, k)
  {
    PutKeys(d, ssid, p);
    PutStorable(d, ssid, p);
    ProfilesRoundTrip(Put(d, ssid, p));
    PutGet(d, ssid, p, k);
  }

  lemma {:induction false} PutStorable(d: Profiles, ssid: string, p: Profile)
    requires Storable(d) && StorableEntry(ssid, p)
    ensures Storable(Put(d, ssid, p))
    decreases |d|
  {
    if d != [] && d[0].0 != ssid {
      assert Storable(d[1..]) by {
        forall i | 0 <= i < |d[1..]| ensures StorableEntry(d[1..][i].0, d[1..][i].1) {
          assert d[1..][i] == d[i + 1];
        }
      }
      PutStorable(d[1..], ssid, p);
      var d' := Put(d, ssid, p);
      assert d'[0] == d[0] && d'[1..] == Put(d[1..], ssid, p);
      forall i | 0 <= i < |d'| ensures StorableEntry(d'[i].0, d'[i].1) {
        if i > 0 {
          assert d'[i] == d'[1..][i - 1];
        } else {
          assert StorableEntry(d[0].0, d[0].1);
        }
      }
    } else if d != [] {
      var d' := Put(d, ssid, p);
      forall i | 0 <= i < |d'| ensures StorableEntry(d'[i].0, d'[i].1) {
        if i > 0 {
          assert d'[i] == d[i];
        }
      }
    }
  }

  // ---------------------------------------------------------------------------
  // Routing in start

  /** The pages `start` serves. */
  datatype Page = Root | Configure | ContinueOffline | NotFound(url: string)

  /** The path group of the request line with trailing `/` removed; `""` when the line does not match. */
  function Url(path: Option<string>): string {
    if path.None? then "" else TrimRight(path.value, c => c == '/')
  }

  function Route(url: string): Page {
    if url == "" then Root
    else if url == "configure" then Configure
    else if url == "continue_offline" then ContinueOffline
    else NotFound(url)
  }

  /** What the accept loop does next: go on, or return with the given value. */
  datatype LoopStep = Continue | Return(value: bool)

  /**
   * One pass of the loop in `start`. `request` is `None` when `accept` timed
   * out, and otherwise says whether the text contains `HTTP` and what the
   * request-line pattern captured; `handled` is what `handle_configure`
   * returns for the request.
   */
  function PortalStep(staConnected: bool, request: Option<(bool, Option<string>)>, handled: bool): LoopStep {
    if staConnected then Return(true)
    else if request.None? || !request.value.0 then Continue
    else
      match Route(Url(request.value.1))
      case Configure => if handled then Return(true) else Continue
      case ContinueOffline => Return(false)
      case _ => Continue
  }

  /**
   * The portal returns `True` only once the station is connected or a
   * configure request was handled, and `False` only through
   * `continue_offline`; trailing slashes never change the page.
   */
  lemma Routing(staConnected: bool, request: Option<(bool, Option<string>)>, handled: bool)
    ensures PortalStep(staConnected, request, handled) == Return(true) <==>
              staConnected || (request.Some? && request.value.0 && Url(request.value.1) == "configure" && handled)
    ensures PortalStep(staConnected, request, handled) == Return(false) <==>
              !staConnected && request.Some? && request.value.0 && Url(request.value.1) == "continue_offline"
  {
  }

  /** `rstrip("/")`: any number of trailing slashes leads to the same page. */
  lemma TrailingSlashes(path: string, n: nat)
    ensures Url(Some(path + seq(n, _ => '/'))) == Url(Some(path))
  {
    TrimRightSkips(path, seq(n, _ => '/'), c => c == '/');
  }

  lemma {:induction false} TrimRightSkips(s: string, t: string, drop: char -> bool)
    requires forall i :: 0 <= i < |t| ==> drop(t[i])
    ensures TrimRight(s + t, drop) == TrimRight(s, drop)
    decreases |t|
  {
    if t == [] {
      assert s + t == s;
    } else {
      var u := s + t;
      assert u[..|u| - 1] == s + t[..|t| - 1];
      TrimRightSkips(s, t[..|t| - 1], drop);
    }
  }

  /** The pages the router tells apart, and a path that names none of them. */
  lemma RouteCases()
    ensures Route(Url(None)) == Root && Route(Url(Some("/"))) == Root
    ensures Route(Url(Some("configure/"))) == Configure
    ensures Route(Url(Some("continue_offline"))) == ContinueOffline
    ensures Route(Url(Some("favicon.ico"))) == NotFound("favicon.ico")
  {
    TrailingSlashes("", 1);
    assert "" + seq(1, _ => '/') == "/";
    TrailingSlashes("configure", 1);
    assert "configure" + seq(1, _ => '/') == "configure/";
    TrimRightStops("configure", c => c == '/');
    TrimRightStops("continue_offline", c => c == '/');
    TrimRightStops("favicon.ico", c => c == '/');
  }
}
