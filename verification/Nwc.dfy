/** Wallet-connect URIs: percent decoding and the query parameters. Texts are UTF-8 bytes, one char per byte. */
module Nwc {
  import opened Wrappers
  import Text

  // ---------- Hex digits ----------

  /** `to_digit(16)`, either case. */
  function HexDigit(c: char): (d: Option<nat>)
    ensures d.Some? ==> d.value < 16
  {
    if '0' <= c <= '9' then Some(c as int - '0' as int)
    else if 'a' <= c <= 'f' then Some(c as int - 'a' as int + 10)
    else if 'A' <= c <= 'F' then Some(c as int - 'A' as int + 10)
    else None
  }

  function DigitFor(d: nat, upper: bool): char
    requires d < 16
  {
    if d < 10 then ('0' as int + d) as char
    else if upper then ('A' as int + d - 10) as char
    else ('a' as int + d - 10) as char
  }

  lemma DigitRoundTrip(d: nat, upper: bool)
    requires d < 16
    ensures HexDigit(DigitFor(d, upper)) == Some(d)
    ensures DigitFor(d, upper) != '&' && DigitFor(d, upper) != '%'
  {
  }

  // ---------- Decoding ----------

  /** A percent sign and two hex digits stand at the front. */
  predicate Escape(s: string) {
    |s| > 2 && s[0] == '%' && HexDigit(s[1]).Some? && HexDigit(s[2]).Some?
  }

  function Escaped(s: string): char
    requires Escape(s)
  {
    (HexDigit(s[1]).value * 16 + HexDigit(s[2]).value) as char
  }

  function Decode(s: string): string {
    if s == "" then ""
    else if Escape(s) then [Escaped(s)] + Decode(s[3..])
    else [s[0]] + Decode(s[1..])
  }

  /** The index loop never reads past the end and decodes the whole text. */
  method PercentDecode(s: string) returns (out: string)
    ensures out == Decode(s)
  {
    out := "";
    var i := 0;
    hide Decode;
    while i < |s|
      invariant i <= |s| && Decode(s) == out + Decode(s[i..])
    {
      DecodeStep(s, i);
      if s[i] == '%' && i + 2 < |s| && HexDigit(s[i + 1]).Some? && HexDigit(s[i + 2]).Some? {
        var hi, lo := HexDigit(s[i + 1]).value, HexDigit(s[i + 2]).value;
        Append(out, (hi * 16 + lo) as char, Decode(s[i + 3..]));
        out := out + [(hi * 16 + lo) as char];
        i := i + 3;
      } else {
        Append(out, s[i], Decode(s[i + 1..]));
        out := out + [s[i]];
        i := i + 1;
      }
    }
    DecodeStep(s, i);
  }

  lemma Append(a: string, c: char, b: string)
    ensures a + ([c] + b) == a + [c] + b
  {
  }

  lemma DecodeStep(s: string, i: nat)
    requires i <= |s|
    ensures i == |s| ==> Decode(s[i..]) == "" && forall out: string :: out + Decode(s[i..]) == out
    ensures i < |s| ==>
      if Escape(s[i..]) then |s| >= i + 3 && Decode(s[i..]) == [Escaped(s[i..])] + Decode(s[i + 3..])
      else Decode(s[i..]) == [s[i]] + Decode(s[i + 1..])
  {
    if i < |s| {
      assert s[i..][1..] == s[i + 1..];
      if Escape(s[i..]) { assert s[i..][3..] == s[i + 3..]; }
    }
  }

  // ---------- Decoding inverts every encoding ----------

  /** How one byte is written: as itself, or as %XX with each digit in either case. */
  datatype Form = Raw | Hex(upperHi: bool, upperLo: bool)

  function EncodeByte(b: char, form: Form): string
    requires (b as int) < 256
  {
    match form
    case Raw => [b]
    case Hex(upperHi, upperLo) => ['%', DigitFor(b as int / 16, upperHi), DigitFor(b as int % 16, upperLo)]
  }

  /** An encoding of bytes that never writes a percent sign as itself. */
  ghost predicate Encodes(data: string, forms: seq<Form>) {
    && |forms| == |data|
    && forall i :: 0 <= i < |data| ==> (data[i] as int) < 256 && (forms[i].Raw? ==> data[i] != '%')
  }

  /** In a query value an ampersand is not written as itself either. */
  ghost predicate QueryEncodes(data: string, forms: seq<Form>) {
    Encodes(data, forms) && forall i :: 0 <= i < |data| ==> (forms[i].Raw? ==> data[i] != '&')
  }

  function Encode(data: string, forms: seq<Form>): string
    requires Encodes(data, forms)
  {
    if data == "" then "" else EncodeByte(data[0], forms[0]) + Encode(data[1..], forms[1..])
  }

  lemma DecodeFront(b: char, form: Form, rest: string)
    requires (b as int) < 256 && (form.Raw? ==> b != '%')
    ensures Decode(EncodeByte(b, form) + rest) == [b] + Decode(rest)
  {
    var s := EncodeByte(b, form) + rest;
    match form
    case Raw =>
      assert s[1..] == rest;
    case Hex(upperHi, upperLo) =>
      DigitRoundTrip(b as int / 16, upperHi);
      DigitRoundTrip(b as int % 16, upperLo);
      assert s[3..] == rest;
      assert Escape(s) && Escaped(s) == b;
  }

  /** Whatever mix of raw bytes and escapes an encoder chose, decoding returns the original bytes. */
  lemma {:induction false} DecodeInvertsEncode(data: string, forms: seq<Form>)
    requires Encodes(data, forms)
    ensures Decode(Encode(data, forms)) == data
  {
    if data != "" {
      DecodeInvertsEncode(data[1..], forms[1..]);
      DecodeFront(data[0], forms[0], Encode(data[1..], forms[1..]));
      assert [data[0]] + data[1..] == data;
    }
  }

  ghost predicate HasEscape(s: string) {
    exists i :: 0 <= i < |s| && Escape(s[i..])
  }

  lemma {:induction false} DecodeShrinks(s: string)
    ensures |Decode(s)| <= |s|
    ensures Decode(s) == s <==> !HasEscape(s)
    ensures HasEscape(s) ==> |Decode(s)| < |s|
  {
    if s != "" {
      if Escape(s) {
        DecodeShrinks(s[3..]);
        assert Escape(s[0..]);
      } else {
        DecodeShrinks(s[1..]);
        if HasEscape(s[1..]) {
          var i :| 0 <= i < |s[1..]| && Escape(s[1..][i..]);
          assert s[1..][i..] == s[i + 1..];
        } else {
          forall i | 0 <= i < |s| ensures !Escape(s[i..]) {
            if i > 0 { assert s[i..] == s[1..][i - 1..]; } else { assert s[0..] == s; }
          }
        }
      }
    }
  }

  // ---------- Query parameters ----------

  /** `split_once(sep)`. */
  function SplitOnce(s: string, sep: char): Option<(string, string)> {
    if s == "" then None
    else if s[0] == sep then Some(("", s[1..]))
    else
      match SplitOnce(s[1..], sep)
      case None => None
      case Some((head, tail)) => Some(([s[0]] + head, tail))
  }

  lemma {:induction false} SplitOnceAt(head: string, tail: string, sep: char)
    requires sep !in head
    ensures SplitOnce(head + [sep] + tail, sep) == Some((head, tail))
  {
    var s := head + [sep] + tail;
    if head == "" {
      assert s[1..] == tail;
    } else {
      assert s[1..] == head[1..] + [sep] + tail;
      SplitOnceAt(head[1..], tail, sep);
      assert [head[0]] + head[1..] == head;
    }
  }

  /** Splitting once finds the first separator, if there is any. */
  lemma {:induction false} SplitOnceIff(s: string, sep: char)
    ensures
      match SplitOnce(s, sep)
      case None => sep !in s
      case Some((head, tail)) => s == head + [sep] + tail && sep !in head
  {
    if s != "" && s[0] != sep { SplitOnceIff(s[1..], sep); }
  }

  /** A pair without an equals sign has no value for any key. */
  lemma JunkIsIgnored(pairs: seq<string>, junk: string, key: string)
    requires '=' !in junk
    ensures LastValue(pairs + [junk], key) == LastValue(pairs, key)
  {
    SplitOnceIff(junk, '=');
    assert (pairs + [junk])[..|pairs|] == pairs;
  }

  /** The decoded value of the last pair with this key. */
  function LastValue(pairs: seq<string>, key: string): Option<string> {
    if pairs == [] then None
    else
      match SplitOnce(pairs[|pairs| - 1], '=')
      case Some((k, value)) => if k == key then Some(Decode(value)) else LastValue(pairs[..|pairs| - 1], key)
      case None => LastValue(pairs[..|pairs| - 1], key)
  }

  /** The loop of `parse_nwc_uri`: for both keys the last occurrence wins. */
  method ParseQuery(query: string) returns (relay: Option<string>, secretHex: Option<string>)
    ensures relay == LastValue(Text.Split(query, '&'), "relay")
    ensures secretHex == LastValue(Text.Split(query, '&'), "secret")
  {
    relay, secretHex := None, None;
    var pairs := Text.Split(query, '&');
    for i := 0 to |pairs|
      invariant relay == LastValue(pairs[..i], "relay") && secretHex == LastValue(pairs[..i], "secret")
    {
      assert pairs[..i + 1][..i] == pairs[..i];
      match SplitOnce(pairs[i], '=') {
        case None =>
        case Some((key, value)) =>
          if key == "relay" {
            var decoded := PercentDecode(value);
            relay := Some(decoded);
          } else if key == "secret" {
            var decoded := PercentDecode(value);
            secretHex := Some(decoded);
          }
      }
    }
    assert pairs[..|pairs|] == pairs;
  }

  /** A parameter as its writer meant it. */
  datatype Param = Param(key: string, value: string, forms: seq<Form>)

  ghost predicate WritableParams(ps: seq<Param>) {
    forall i :: 0 <= i < |ps| ==> '=' !in ps[i].key && '&' !in ps[i].key && QueryEncodes(ps[i].value, ps[i].forms)
  }

  function WriteParam(p: Param): string
    requires Encodes(p.value, p.forms)
  {
    p.key + "=" + Encode(p.value, p.forms)
  }

  function WriteAll(ps: seq<Param>): (pairs: seq<string>)
    requires WritableParams(ps)
    ensures |pairs| == |ps| && forall i :: 0 <= i < |ps| ==> pairs[i] == WriteParam(ps[i])
  {
    if ps == [] then [] else WriteAll(ps[..|ps| - 1]) + [WriteParam(ps[|ps| - 1])]
  }

  function LastParam(ps: seq<Param>, key: string): Option<string> {
    if ps == [] then None
    else if ps[|ps| - 1].key == key then Some(ps[|ps| - 1].value)
    else LastParam(ps[..|ps| - 1], key)
  }

  lemma {:induction false} NoAmpersand(data: string, forms: seq<Form>)
    requires QueryEncodes(data, forms)
    ensures '&' !in Encode(data, forms)
  {
    if data != "" {
      NoAmpersand(data[1..], forms[1..]);
      DigitRoundTrip(data[0] as int / 16, forms[0].Hex? && forms[0].upperHi);
      DigitRoundTrip(data[0] as int % 16, forms[0].Hex? && forms[0].upperLo);
    }
  }

  lemma {:induction false} LastValueIsLastParam(ps: seq<Param>, key: string)
    requires WritableParams(ps)
    ensures LastValue(WriteAll(ps), key) == LastParam(ps, key)
  {
    if ps != [] {
      var init, last := ps[..|ps| - 1], ps[|ps| - 1];
      LastValueIsLastParam(init, key);
      assert WriteAll(ps)[..|ps| - 1] == WriteAll(init);
      SplitOnceAt(last.key, Encode(last.value, last.forms), '=');
      DecodeInvertsEncode(last.value, last.forms);
    }
  }

  /** Over any query, however its values are encoded, parsing gives back the last value written for the key. */
  lemma QueryRoundTrip(ps: seq<Param>, key: string)
    requires ps != [] && WritableParams(ps)
    ensures LastValue(Text.Split(Text.Join(WriteAll(ps), '&'), '&'), key) == LastParam(ps, key)
  {
    forall i | 0 <= i < |ps| ensures '&' !in WriteAll(ps)[i] {
      NoAmpersand(ps[i].value, ps[i].forms);
    }
    Text.SplitJoin(WriteAll(ps), '&');
    LastValueIsLastParam(ps, key);
  }
}
