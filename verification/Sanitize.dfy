/** Path sanitisation: turning untrusted names into single path components. */
module Sanitize {
  import opened Wrappers

  const MAX_NAME_BYTES := 255

  /** Bytes of a character in UTF-8. */
  function CharBytes(c: char): nat {
    if c as int < 0x80 then 1
    else if c as int < 0x800 then 2
    else if c as int < 0x1_0000 then 3
    else 4
  }

  function Bits(n: nat): nat {
    if n == 0 then 1 else 2 * Bits(n - 1)
  }

  /** What `n` bytes of UTF-8 can encode: seven bits in one byte, else five for every byte and one more. */
  function Capacity(n: nat): nat {
    if n == 0 then 0 else if n == 1 then Bits(7) else Bits(5 * n + 1)
  }

  /** A character takes as few bytes as can encode it. */
  lemma CharBytesIsLeast(c: char)
    ensures 1 <= CharBytes(c) <= 4 && Capacity(CharBytes(c) - 1) <= c as int < Capacity(CharBytes(c))
  {
    assert Bits(4) == 16 && Bits(7) == 128 && Bits(8) == 256;
    assert Bits(11) == 2048 && Bits(12) == 4096;
    assert Bits(16) == 0x1_0000 && Bits(18) == 0x4_0000;
    assert Bits(21) == 0x20_0000;
  }

  /** `str::len`: bytes, not characters. */
  function ByteLen(s: string): nat {
    if s == "" then 0 else ByteLen(s[..|s| - 1]) + CharBytes(s[|s| - 1])
  }

  predicate IsControl(c: char) {
    c as int < 32 || c as int == 127
  }

  /** Characters that are never kept: separators, NUL and the other ASCII controls. */
  predicate Unsafe(c: char) {
    c == '/' || c == '\\' || IsControl(c)
  }

  function SafeChar(c: char): char {
    if Unsafe(c) then '_' else c
  }

  function SafeChars(s: string): (r: string)
    ensures |r| == |s|
    ensures forall i :: 0 <= i < |s| ==> r[i] == SafeChar(s[i])
  {
    if s == "" then "" else SafeChars(s[..|s| - 1]) + [SafeChar(s[|s| - 1])]
  }

  /** `replace("..", "__")`: left to right, without overlaps. */
  function ReplaceDots(s: string): string {
    if |s| >= 2 && s[0] == '.' && s[1] == '.' then "__" + ReplaceDots(s[2..])
    else if s == "" then ""
    else [s[0]] + ReplaceDots(s[1..])
  }

  /** Pops characters until at most 255 bytes remain. */
  function Truncated(s: string): string {
    if ByteLen(s) > MAX_NAME_BYTES then assert s != ""; Truncated(s[..|s| - 1]) else s
  }

  predicate AllUnderscores(s: string) {
    forall i :: 0 <= i < |s| ==> s[i] == '_'
  }

  function Component(input: string): string {
    if input == "" then "unnamed"
    else
      var result := Truncated(ReplaceDots(SafeChars(input)));
      if AllUnderscores(result) then "unnamed" else result
  }

  function MimeDir(mimeType: string): string {
    if mimeType == "" then "unknown"
    else
      var result := Component(ReplaceSlash(mimeType));
      if AllUnderscores(result) then "unknown" else result
  }

  function ReplaceSlash(s: string): (r: string)
    ensures |r| == |s| && forall i :: 0 <= i < |s| ==> r[i] == if s[i] == '/' then '_' else s[i]
  {
    if s == "" then "" else [if s[0] == '/' then '_' else s[0]] + ReplaceSlash(s[1..])
  }

  /** What a safe path component is, with no reference to how one is made. */
  ghost predicate Clean(s: string) {
    && s != ""
    && ByteLen(s) <= MAX_NAME_BYTES
    && (forall i :: 0 <= i < |s| ==> !Unsafe(s[i]))
    && NoDots(s)
    && !AllUnderscores(s)
  }

  ghost predicate NoDots(s: string) {
    forall i :: 0 <= i < |s| - 1 ==> !(s[i] == '.' && s[i + 1] == '.')
  }

  ghost predicate AllSafe(s: string) {
    forall i :: 0 <= i < |s| ==> !Unsafe(s[i])
  }

  // ---------- The loops of the source ----------

  method SanitizePathComponent(input: string) returns (result: string)
    ensures result == Component(input)
    ensures Clean(result)
  {
    ComponentIsClean(input);
    if input == "" { return "unnamed"; }
    result := "";
    for i := 0 to |input|
      invariant result == SafeChars(input[..i])
    {
      assert input[..i + 1][..i] == input[..i];
      if input[i] == '/' || input[i] == '\0' || input[i] == '\\' {
        result := result + "_";
      } else if IsControl(input[i]) {
        result := result + "_";
      } else {
        result := result + [input[i]];
      }
    }
    assert input[..|input|] == input;
    result := ReplaceDots(result);
    while ByteLen(result) > 255
      invariant Truncated(result) == Truncated(ReplaceDots(SafeChars(input)))
      decreases |result|
    {
      result := result[..|result| - 1];
    }
    if result == "" || AllUnderscores(result) {
      result := "unnamed";
    }
  }

  // ---------- What sanitising guarantees ----------

  lemma {:induction false} ReplaceDotsClean(s: string)
    requires AllSafe(s)
    ensures AllSafe(ReplaceDots(s)) && NoDots(ReplaceDots(s))
    ensures |ReplaceDots(s)| == |s|
    ensures s != "" && !(|s| >= 2 && s[0] == '.' && s[1] == '.') ==> ReplaceDots(s)[0] == s[0]
    ensures |s| >= 2 && s[0] == '.' && s[1] == '.' ==> ReplaceDots(s)[0] == '_'
  {
    if |s| >= 2 && s[0] == '.' && s[1] == '.' {
      ReplaceDotsClean(s[2..]);
      var rest := ReplaceDots(s[2..]);
      assert ReplaceDots(s) == "__" + rest;
      forall i | 0 <= i < |s| - 1 ensures !(ReplaceDots(s)[i] == '.' && ReplaceDots(s)[i + 1] == '.') {
        if i >= 2 { assert ReplaceDots(s)[i] == rest[i - 2] && ReplaceDots(s)[i + 1] == rest[i - 1]; }
      }
    } else if s != "" {
      ReplaceDotsClean(s[1..]);
      var rest := ReplaceDots(s[1..]);
      assert ReplaceDots(s) == [s[0]] + rest;
      forall i | 0 <= i < |s| - 1 ensures !(ReplaceDots(s)[i] == '.' && ReplaceDots(s)[i + 1] == '.') {
        if i >= 1 { assert ReplaceDots(s)[i] == rest[i - 1] && ReplaceDots(s)[i + 1] == rest[i]; }
      }
    }
  }

  lemma {:induction false} ReplaceDotsIdentity(s: string)
    requires NoDots(s)
    ensures ReplaceDots(s) == s
  {
    if s != "" {
      ReplaceDotsIdentity(s[1..]);
      assert [s[0]] + s[1..] == s;
    }
  }

  lemma {:induction false} TruncatedPrefix(s: string)
    ensures Truncated(s) <= s && ByteLen(Truncated(s)) <= MAX_NAME_BYTES
    ensures AllSafe(s) ==> AllSafe(Truncated(s))
    ensures NoDots(s) ==> NoDots(Truncated(s))
    ensures s != "" ==> Truncated(s) != ""
  {
    if ByteLen(s) > MAX_NAME_BYTES {
      TruncatedPrefix(s[..|s| - 1]);
    }
  }

  lemma UnnamedIsClean()
    ensures Clean("unnamed")
  {
    ShortByteLen("unnamed");
    assert "unnamed"[0] == 'u';
  }

  lemma {:induction false} ShortByteLen(s: string)
    ensures ByteLen(s) <= 4 * |s|
    ensures (forall i :: 0 <= i < |s| ==> s[i] as int < 0x80) ==> ByteLen(s) == |s|
  {
    if s != "" { ShortByteLen(s[..|s| - 1]); }
  }

  /** Every result is a non-empty component of at most 255 bytes, without separators, control characters or "..". */
  lemma ComponentIsClean(input: string)
    ensures Clean(Component(input))
  {
    UnnamedIsClean();
    if input != "" {
      ReplaceDotsClean(SafeChars(input));
      TruncatedPrefix(ReplaceDots(SafeChars(input)));
    }
  }

  lemma {:induction false} SafeCharsIdentity(s: string)
    requires AllSafe(s)
    ensures SafeChars(s) == s
  {
    if s != "" {
      SafeCharsIdentity(s[..|s| - 1]);
      assert s[..|s| - 1] + [s[|s| - 1]] == s;
    }
  }

  /** Exactly the clean names are left alone. */
  lemma FixpointsAreClean(s: string)
    ensures Component(s) == s <==> Clean(s)
  {
    if Component(s) == s {
      ComponentIsClean(s);
    }
    if Clean(s) {
      SafeCharsIdentity(s);
      ReplaceDotsIdentity(s);
    }
  }

  /** Sanitising twice is sanitising once. */
  lemma ComponentIdempotent(input: string)
    ensures Component(Component(input)) == Component(input)
  {
    ComponentIsClean(input);
    FixpointsAreClean(Component(input));
  }

  /** MIME directory names are already clean, so creating them stores the name that later lookups use. */
  lemma MimeDirIsFixpoint(mimeType: string)
    ensures Clean(MimeDir(mimeType)) && Component(MimeDir(mimeType)) == MimeDir(mimeType)
  {
    ShortByteLen("unknown");
    assert "unknown"[0] == 'u';
    assert Clean("unknown");
    if mimeType != "" {
      ComponentIsClean(ReplaceSlash(mimeType));
    }
    FixpointsAreClean(MimeDir(mimeType));
  }

  /** A short ASCII name of letters, digits and hyphens is a component as it stands. */
  lemma PlainNameIsClean(s: string)
    requires 1 <= |s| <= MAX_NAME_BYTES
    requires forall i :: 0 <= i < |s| ==> '0' <= s[i] <= '9' || 'a' <= s[i] <= 'z' || s[i] == '-'
    ensures Clean(s) && Component(s) == s
  {
    ShortByteLen(s);
    assert s[0] != '_';
    FixpointsAreClean(s);
  }

  // ---------- What sanitising keeps ----------

  /** How many dots stand right before position `i`. */
  function DotsBefore(s: string, i: nat): nat
    requires i <= |s|
  {
    if i == 0 || s[i - 1] != '.' then 0 else 1 + DotsBefore(s, i - 1)
  }

  /** A dot that belongs to a pair, pairs being taken from the left of each run of dots. */
  predicate Paired(s: string, i: nat)
    requires i < |s|
  {
    s[i] == '.' && (DotsBefore(s, i) % 2 == 1 || (i + 1 < |s| && s[i + 1] == '.'))
  }

  lemma {:induction false} DotsShift(s: string, k: nat, i: nat)
    requires k <= i <= |s|
    ensures
      var d := DotsBefore(s[k..], i - k);
      DotsBefore(s, i) == if d == i - k then d + DotsBefore(s, k) else d
    decreases i
  {
    if i > k {
      assert s[k..][i - k - 1] == s[i - 1];
      DotsShift(s, k, i - 1);
      DotsAtMost(s[k..], i - k - 1);
    }
  }

  lemma {:induction false} DotsAtMost(s: string, i: nat)
    requires i <= |s|
    ensures DotsBefore(s, i) <= i
  {
    if i > 0 && s[i - 1] == '.' { DotsAtMost(s, i - 1); }
  }

  /** Replacing ".." changes exactly the paired dots. */
  lemma {:induction false} ReplaceDotsAt(s: string, i: nat)
    requires i < |s|
    ensures |ReplaceDots(s)| == |s| && ReplaceDots(s)[i] == if Paired(s, i) then '_' else s[i]
    decreases |s|
  {
    if |s| >= 2 && s[0] == '.' && s[1] == '.' {
      if |s| > 2 { ReplaceDotsAt(s[2..], if i < 2 then 0 else i - 2); }
      assert DotsBefore(s, 0) == 0 && DotsBefore(s, 1) == 1 && DotsBefore(s, 2) == 2;
      if i >= 2 { DotsShift(s, 2, i); }
    } else {
      if |s| > 1 { ReplaceDotsAt(s[1..], if i < 1 then 0 else i - 1); }
      if i >= 1 {
        DotsShift(s, 1, i);
        assert i == 1 && s[0] == '.' ==> s[1] != '.';
        assert i > 1 && DotsBefore(s[1..], i - 1) == i - 1 ==> s[1] == '.' by {
          if i > 1 && DotsBefore(s[1..], i - 1) == i - 1 { AllDots(s[1..], i - 1); }
        }
      }
    }
  }

  lemma {:induction false} AllDots(s: string, i: nat)
    requires 0 < i <= |s| && DotsBefore(s, i) == i
    ensures s[0] == '.'
  {
    if i > 1 { AllDots(s, i - 1); }
  }

  lemma {:induction false} TruncatedIsLongest(s: string)
    ensures var r := Truncated(s); r <= s && (|r| < |s| ==> ByteLen(s[..|r| + 1]) > 255)
  {
    if ByteLen(s) > MAX_NAME_BYTES {
      TruncatedIsLongest(s[..|s| - 1]);
      var r := Truncated(s[..|s| - 1]);
      if |r| == |s| - 1 { assert s[..|r| + 1] == s; } else { assert s[..|s| - 1][..|r| + 1] == s[..|r| + 1]; }
    }
  }

  /** A character as it is stored: unsafe ones and paired dots become underscores, all others stay. */
  function StoredChar(input: string, i: nat): char
    requires i < |input|
  {
    if input[i] == '/' || input[i] == '\\' || input[i] as int < 32 || input[i] as int == 127 || Paired(input, i) then '_' else input[i]
  }

  ghost predicate StoredAs(input: string, result: string) {
    |result| <= |input| && forall i :: 0 <= i < |result| ==> result[i] == StoredChar(input, i)
  }

  lemma {:induction false} DotsOfSafe(s: string, i: nat)
    requires i <= |s|
    ensures DotsBefore(SafeChars(s), i) == DotsBefore(s, i)
  {
    if i > 0 { DotsOfSafe(s, i - 1); }
  }

  lemma MappedChar(input: string, i: nat)
    requires i < |input|
    ensures
      var mapped := ReplaceDots(SafeChars(input));
      |mapped| == |input| && mapped[i] == StoredChar(input, i)
  {
    ReplaceDotsAt(SafeChars(input), i);
    DotsOfSafe(input, i);
  }

  /**
   * What the component of a non-empty name says: the name character by character as stored, cut to the longest start of at
   * most 255 UTF-8 bytes; or "unnamed" if only underscores would be left.
   */
  lemma ComponentReads(input: string)
    requires input != ""
    ensures
      exists kept :: StoredAs(input, kept) && kept != "" && ByteLen(kept) <= 255
        && (|kept| < |input| ==> ByteLen(kept + [StoredChar(input, |kept|)]) > 255)
        && Component(input) == if forall i :: 0 <= i < |kept| ==> kept[i] == '_' then "unnamed" else kept
    ensures Component("") == "unnamed"
  {
    hide ReplaceDots, SafeChars, Truncated, Paired, ByteLen;
    var mapped := ReplaceDots(SafeChars(input));
    forall i | 0 <= i < |input| ensures |mapped| == |input| && mapped[i] == StoredChar(input, i) { MappedChar(input, i); }
    MappedChar(input, 0);
    var kept := Truncated(mapped);
    TruncatedPrefix(mapped);
    TruncatedIsLongest(mapped);
    if |kept| < |input| { assert mapped[..|kept| + 1] == kept + [StoredChar(input, |kept|)]; }
    assert StoredAs(input, kept);
  }

  /** The directory of a MIME type is the type with every slash an underscore, if that is a safe component. */
  lemma MimeDirReads(mimeType: string, dir: string)
    requires |dir| == |mimeType| && Clean(dir)
    requires forall i :: 0 <= i < |dir| ==> dir[i] == if mimeType[i] == '/' then '_' else mimeType[i]
    ensures MimeDir(mimeType) == dir && MimeDir("") == "unknown"
  {
    assert ReplaceSlash(mimeType) == dir;
    FixpointsAreClean(dir);
  }

  // ---------- Hashes ----------

  predicate IsHex(c: char) {
    '0' <= c <= '9' || 'a' <= c <= 'f' || 'A' <= c <= 'F'
  }

  /** `to_lowercase` on the ASCII letters; hash strings hold no others. */
  function LowerChar(c: char): char {
    if 'A' <= c <= 'Z' then (c as int + 32) as char else c
  }

  function Lower(s: string): (r: string)
    ensures |r| == |s|
    ensures forall i :: 0 <= i < |s| ==> r[i] == LowerChar(s[i])
  {
    if s == "" then "" else Lower(s[..|s| - 1]) + [LowerChar(s[|s| - 1])]
  }

  /** The value of a hex digit, whatever its case. */
  function HexValue(c: char): nat {
    if '0' <= c <= '9' then c as int - '0' as int
    else if 'a' <= c <= 'f' then 10 + (c as int - 'a' as int)
    else if 'A' <= c <= 'F' then 10 + (c as int - 'A' as int)
    else 0
  }

  predicate ValidSha(s: string) {
    ByteLen(s) == 64 && forall i :: 0 <= i < |s| ==> IsHex(s[i])
  }

  /** `sanitize_sha256`: the lower-case hash, or None for an invalid one. */
  function Sha256(input: string): Option<string> {
    if ValidSha(input) then Some(Lower(input)) else None
  }

  ghost predicate Normalised(h: string) {
    |h| == 64 && forall i :: 0 <= i < 64 ==> '0' <= h[i] <= '9' || 'a' <= h[i] <= 'f'
  }

  /**
   * A hash is accepted exactly when it is 64 hex digits; the result is normalised, stands for the same number digit by
   * digit, and normalising it again changes nothing.
   */
  lemma Sha256Normalises(input: string)
    ensures Sha256(input).Some? <==> |input| == 64 && (forall i :: 0 <= i < 64 ==> IsHex(input[i]))
    ensures Sha256(input).Some? ==> Normalised(Sha256(input).value) && Sha256(Sha256(input).value) == Sha256(input)
    ensures Sha256(input).Some? ==> forall i :: 0 <= i < 64 ==> HexValue(Sha256(input).value[i]) == HexValue(input[i])
    ensures Sha256(input) == Some(input) <==> Normalised(input)
  {
    ShortByteLen(input);
    if Sha256(input).Some? {
      assert |input| == 64;
      var h := Sha256(input).value;
      ShortByteLen(h);
      assert Lower(h) == h;
    }
    if Normalised(input) {
      assert Lower(input) == input;
    }
  }
}
