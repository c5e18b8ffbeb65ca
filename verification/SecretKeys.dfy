// Which keys are secret, and where a secret stands in a text, byte by byte and
// without the definitions of the redaction (src/error.rs).

module SecretKeys {
  import opened Bytes
  import opened Wrappers
  import opened Redaction

  // ---- Names. ----

  /** The secret names, written out. */
  const NAMES: seq<string> := [
    "access_token", "accesskey", "access_key", "access_key_id", "api_key", "aws_access_key_id",
    "aws_secret_access_key", "aws_session_token", "apikey", "authorization", "client_secret",
    "credential", "credentials", "id_token", "password", "passwd", "pwd", "secret",
    "secret_access_key", "security_token", "signature", "sig", "token"]

  predicate IsPlainKey(key: bytes) {
    forall k :: 0 <= k < |key| ==> 97 <= key[k] <= 122 || 48 <= key[k] <= 57 || key[k] == 95 || key[k] == 45
  }

  predicate StartsWithText(key: bytes, text: string) {
    |text| <= |key| && forall k :: 0 <= k < |text| ==> key[k] == text[k] as int
  }

  predicate IsText(key: bytes, text: string) {
    |key| == |text| && StartsWithText(key, text)
  }

  lemma {:induction false} NothingToDecode(key: bytes, i: nat)
    requires i <= |key| && forall k :: 0 <= k < |key| ==> key[k] != 37
    ensures PercentDecode(key, i) == key[i..]
    decreases |key| - i
  {
    if i < |key| {
      NothingToDecode(key, i + 1);
      assert key[i..] == [key[i]] + key[i + 1..];
    }
  }

  lemma NameMeans(name: bytes)
    ensures IsSecretName(name)
       <==> StartsWithText(name, "x-amz-") || exists k :: 0 <= k < |NAMES| && IsText(name, NAMES[k])
  {
    assert SECRET_KEYS == NAMES;
    forall k | 0 <= k < |NAMES|
      ensures EqAscii(name, SECRET_KEYS[k]) == IsText(name, NAMES[k])
    {
    }
    if 6 <= |name| {
      assert forall k :: 0 <= k < 6 ==> name[..6][k] == name[k];
    }
  }

  /** A key of small letters, digits, underscores and dashes is secret exactly for these names. */
  lemma PlainKeyMeans(key: bytes)
    requires IsPlainKey(key)
    ensures IsSecretKey(key)
       <==> StartsWithText(key, "x-amz-") || exists k :: 0 <= k < |NAMES| && IsText(key, NAMES[k])
  {
    hide IsSecretName;
    NothingToDecode(key, 0);
    assert key[0..] == key && Lowered(key) == key;
    NameMeans(key);
  }

  // ---- Letter case. ----

  /** The same bytes, up to the case of ASCII letters. */
  predicate IsCaseOf(a: int, b: int) {
    a == b || (65 <= a <= 90 && b == a + 32) || (97 <= a <= 122 && b == a - 32)
  }

  predicate SameUpToCase(a: bytes, b: bytes) {
    |a| == |b| && forall k :: 0 <= k < |a| ==> IsCaseOf(a[k], b[k])
  }

  lemma CaseOfHex(a: int, b: int)
    requires IsCaseOf(a, b)
    ensures HexValue(a) == HexValue(b)
  {
  }

  lemma {:induction false} CaseOfDecoded(a: bytes, b: bytes, i: nat)
    requires SameUpToCase(a, b)
    ensures SameUpToCase(PercentDecode(a, i), PercentDecode(b, i))
    decreases |a| - i
  {
    hide HexValue;
    hide PercentDecode;
    if i >= |a| {
      DecodeEnd(a, i);
      DecodeEnd(b, i);
    } else {
      DecodeStep(a, i);
      DecodeStep(b, i);
      assert IsCaseOf(a[i], b[i]);
      var escaped := a[i] == 37 && i + 2 < |a| && HexValue(a[i + 1]).Some? && HexValue(a[i + 2]).Some?;
      if i + 2 < |a| {
        CaseOfHex(a[i + 1], b[i + 1]);
        CaseOfHex(a[i + 2], b[i + 2]);
      }
      if escaped {
        CaseOfDecoded(a, b, i + 3);
      } else {
        CaseOfDecoded(a, b, i + 1);
      }
    }
  }

  lemma CaseOfLowered(a: bytes, b: bytes)
    requires SameUpToCase(a, b)
    ensures Lowered(a) == Lowered(b)
  {
    forall k | 0 <= k < |a|
      ensures Lowered(a)[k] == Lowered(b)[k]
    {
      assert IsCaseOf(a[k], b[k]);
    }
  }

  /** Keys that differ only in letter case are secret alike. */
  lemma CaseKeepsSecrecy(a: bytes, b: bytes)
    requires SameUpToCase(a, b)
    ensures IsSecretKey(a) == IsSecretKey(b)
  {
    hide IsSecretName;
    CaseOfDecoded(a, b, 0);
    CaseOfLowered(PercentDecode(a, 0), PercentDecode(b, 0));
  }

  // ---- Percent encoding. ----

  predicate IsHexOf(digit: int, n: int) {
    if n < 10 then digit == 48 + n else digit == 55 + n || digit == 87 + n
  }

  /** `key` spells `plain` with some bytes percent-encoded, its percent signs among them, in digits of either case. */
  predicate Encodes(key: bytes, plain: bytes)
    decreases |plain|
  {
    if plain == [] then key == []
    else
      || (key != [] && key[0] == plain[0] != 37 && Encodes(key[1..], plain[1..]))
      || (&& 3 <= |key| && key[0] == 37
          && IsHexOf(key[1], plain[0] / 16) && IsHexOf(key[2], plain[0] % 16)
          && Encodes(key[3..], plain[1..]))
  }

  lemma {:induction false} DecodeTail(key: bytes, n: nat, i: nat)
    requires n <= |key|
    ensures PercentDecode(key, n + i) == PercentDecode(key[n..], i)
    decreases |key| - n - i
  {
    hide HexValue;
    hide PercentDecode;
    var t := key[n..];
    if n + i >= |key| {
      DecodeEnd(key, n + i);
      DecodeEnd(t, i);
    } else {
      DecodeStep(key, n + i);
      DecodeStep(t, i);
      assert key[n + i] == t[i];
      assert Get(key, n + i + 1) == Get(t, i + 1) && Get(key, n + i + 2) == Get(t, i + 2);
      DecodeTail(key, n, i + 3);
      DecodeTail(key, n, i + 1);
    }
  }

  lemma HexReads(digit: int, n: int)
    requires 0 <= n < 16 && IsHexOf(digit, n)
    ensures HexValue(digit) == Some(n)
  {
  }

  lemma LiteralReads(key: bytes)
    requires key != [] && key[0] != 37
    ensures PercentDecode(key, 0) == [key[0]] + PercentDecode(key[1..], 0)
  {
    hide PercentDecode;
    hide HexValue;
    DecodeStep(key, 0);
    DecodeTail(key, 1, 0);
  }

  lemma EscapeReads(key: bytes, b: byte)
    requires 3 <= |key| && key[0] == 37 && IsHexOf(key[1], b / 16) && IsHexOf(key[2], b % 16)
    ensures PercentDecode(key, 0) == [b] + PercentDecode(key[3..], 0)
  {
    hide PercentDecode;
    hide HexValue;
    hide IsHexOf;
    DecodeStep(key, 0);
    HexReads(key[1], b / 16);
    HexReads(key[2], b % 16);
    DecodeTail(key, 3, 0);
  }

  lemma {:induction false} EncodedReads(key: bytes, plain: bytes)
    requires Encodes(key, plain)
    ensures PercentDecode(key, 0) == plain
    decreases |plain|
  {
    hide PercentDecode;
    hide IsHexOf;
    if plain == [] {
      DecodeEnd(key, 0);
    } else {
      assert plain == [plain[0]] + plain[1..];
      if key[0] == plain[0] != 37 && Encodes(key[1..], plain[1..]) {
        LiteralReads(key);
        EncodedReads(key[1..], plain[1..]);
      } else {
        EscapeReads(key, plain[0]);
        EncodedReads(key[3..], plain[1..]);
      }
    }
  }

  /** Which bytes of a key are percent-encoded, and in digits of which case, never changes whether it is secret. */
  lemma EncodingKeepsSecrecy(a: bytes, b: bytes, plain: bytes)
    requires Encodes(a, plain) && Encodes(b, plain)
    ensures IsSecretKey(a) == IsSecretKey(b)
  {
    EncodedReads(a, plain);
    EncodedReads(b, plain);
  }

  /** A key without percent signs is an encoding of itself. */
  lemma {:induction false} EncodesItself(plain: bytes)
    requires forall k :: 0 <= k < |plain| ==> plain[k] != 37
    ensures Encodes(plain, plain)
  {
    if plain != [] {
      EncodesItself(plain[1..]);
    }
  }

  // ---- All keys. ----

  predicate HasNoCapital(text: string) {
    forall k :: 0 <= k < |text| ==> !('A' <= text[k] <= 'Z')
  }

  predicate StartsLikeText(key: bytes, text: string) {
    |text| <= |key| && forall k :: 0 <= k < |text| ==> IsCaseOf(key[k], text[k] as int)
  }

  lemma LoweredStarts(key: bytes, text: string)
    requires HasNoCapital(text)
    ensures StartsWithText(Lowered(key), text) <==> StartsLikeText(key, text)
  {
    if |text| <= |key| {
      forall k | 0 <= k < |text|
        ensures Lowered(key)[k] == text[k] as int <==> IsCaseOf(key[k], text[k] as int)
      {
        assert !('A' <= text[k] <= 'Z');
      }
    }
  }

  lemma NamesHaveNoCapital(k: nat)
    requires k < |NAMES|
    ensures HasNoCapital(NAMES[k])
  {
    hide HasNoCapital;
    if k < 8 {
      FirstNames(k);
    } else if k < 16 {
      NextNames(k);
    } else {
      LastNames(k);
    }
  }

  lemma FirstNames(k: nat)
    requires k < 8
    ensures HasNoCapital(NAMES[k])
  {
  }

  lemma NextNames(k: nat)
    requires 8 <= k < 16
    ensures HasNoCapital(NAMES[k])
  {
  }

  lemma LastNames(k: nat)
    requires 16 <= k < |NAMES|
    ensures HasNoCapital(NAMES[k])
  {
  }

  /** However it is encoded, a key is secret exactly if it spells a name, or the prefix, in any case. */
  lemma KeyMeans(key: bytes, plain: bytes)
    requires Encodes(key, plain)
    ensures IsSecretKey(key)
       <==> || StartsLikeText(plain, "x-amz-")
            || exists k :: 0 <= k < |NAMES| && |plain| == |NAMES[k]| && StartsLikeText(plain, NAMES[k])
  {
    hide IsSecretName;
    hide StartsLikeText;
    hide StartsWithText;
    hide HasNoCapital;
    EncodedReads(key, plain);
    var lowered := Lowered(plain);
    NameMeans(lowered);
    PrefixHasNoCapital();
    LoweredStarts(plain, "x-amz-");
    forall k | 0 <= k < |NAMES|
      ensures IsText(lowered, NAMES[k]) <==> |plain| == |NAMES[k]| && StartsLikeText(plain, NAMES[k])
    {
      NamesHaveNoCapital(k);
      LoweredStarts(plain, NAMES[k]);
    }
  }

  lemma PrefixHasNoCapital()
    ensures HasNoCapital("x-amz-")
  {
  }

  // ---- Places. ----

  /** Before a key: the start of the text, or one of `?&;, ` tab, newlines, `{[(` and quotes. */
  predicate MayPrecedeKey(b: int) {
    || b == 63 || b == 38 || b == 59 || b == 44 || b == 32 || b == 9 || b == 10 || b == 13
    || b == 123 || b == 91 || b == 40 || b == 39 || b == 34
  }

  /** In a key: letters, digits, `_-.%`. */
  predicate MayStandInKey(b: int) {
    65 <= b <= 90 || 97 <= b <= 122 || 48 <= b <= 57 || b == 95 || b == 45 || b == 46 || b == 37
  }

  lemma {:induction false} KeyEndMeans(s: bytes, i: nat, e: nat)
    requires i <= |s|
    ensures KeyEnd(s, i) == e
       <==> && i <= e <= |s| && (forall k :: i <= k < e ==> MayStandInKey(s[k]))
            && (e == |s| || !MayStandInKey(s[e]))
    decreases |s| - i
  {
    if i < |s| && IsKeyByte(s[i]) {
      KeyEndMeans(s, i + 1, e);
    }
  }

  lemma {:induction false} BlanksEndMeans(s: bytes, i: nat, e: nat)
    requires i <= |s|
    ensures BlanksEnd(s, i) == e
       <==> && i <= e <= |s| && (forall k :: i <= k < e ==> s[k] == 32 || s[k] == 9)
            && (e == |s| || (s[e] != 32 && s[e] != 9))
    decreases |s| - i
  {
    if i < |s| && IsBlank(s[i]) {
      BlanksEndMeans(s, i + 1, e);
    }
  }

  /** A key without quotes: `=` or `:` follows it at once. */
  lemma UnquotedKey(s: bytes, i: nat, e: nat)
    requires i < e < |s| && (forall k :: i <= k < e ==> MayStandInKey(s[k])) && (s[e] == 61 || s[e] == 58)
    ensures IsKey(s, i) <==> i == 0 || MayPrecedeKey(s[i - 1])
    ensures KeyEnd(s, i) == e && SeparatorIndex(s, i) == e
  {
    KeyEndMeans(s, i, e);
  }

  /** A key between quotes: its closing quote and blanks stand before the `=` or `:`. */
  lemma QuotedKey(s: bytes, i: nat, e: nat, separator: nat)
    requires 0 < i <= e < separator < |s| && forall k :: i <= k < e ==> MayStandInKey(s[k])
    requires (s[i - 1] == 34 || s[i - 1] == 39) && s[e] == s[i - 1]
    requires forall k :: e < k < separator ==> s[k] == 32 || s[k] == 9
    requires s[separator] == 61 || s[separator] == 58
    ensures IsKey(s, i) && KeyEnd(s, i) == e && SeparatorIndex(s, i) == separator
  {
    KeyEndMeans(s, i, e);
    BlanksEndMeans(s, e + 1, separator);
  }

  // ---- Values. ----

  predicate MayEndValue(b: int) {
    b == 38 || b == 59 || b == 44 || b == 32 || b == 9 || b == 10 || b == 13
  }

  lemma {:induction false} BareValueEndMeans(s: bytes, i: nat, e: nat)
    requires i <= |s|
    ensures BareValueEnd(s, i) == e
       <==> && i <= e <= |s| && (forall k :: i <= k < e ==> !MayEndValue(s[k])) && (e == |s| || MayEndValue(s[e]))
    decreases |s| - i
  {
    if i < |s| && !EndsValue(s[i]) {
      BareValueEndMeans(s, i + 1, e);
    }
  }

  lemma {:induction false} HeaderValueEndMeans(s: bytes, i: nat, e: nat)
    requires i <= |s|
    ensures HeaderValueEnd(s, i) == e
       <==> && i <= e <= |s| && (forall k :: i <= k < e ==> s[k] != 10 && s[k] != 13)
            && (e == |s| || s[e] == 10 || s[e] == 13)
    decreases |s| - i
  {
    if i < |s| && !IsNewline(s[i]) {
      HeaderValueEndMeans(s, i + 1, e);
    }
  }

  /** The inside of a quoted value: bytes other than the quote and backslash, and pairs behind a backslash. */
  predicate IsInside(s: bytes, i: nat, e: nat, quote: int)
    decreases e - i
  {
    || i == e
    || (i + 1 < e && e <= |s| && s[i] == 92 && IsInside(s, i + 2, e, quote))
    || (i < e && e <= |s| && s[i] != 92 && s[i] != quote && IsInside(s, i + 1, e, quote))
  }

  lemma {:induction false} QuoteCloseMeans(s: bytes, i: nat, quote: int, e: nat)
    requires quote == 34 || quote == 39
    ensures QuoteClose(s, i, quote) == Some(e)
       <==> i < e <= |s| && s[e - 1] == quote && IsInside(s, i, e - 1, quote)
    decreases |s| - i
  {
    if i < |s| {
      if s[i] == 92 {
        QuoteCloseMeans(s, i + 2, quote, e);
      } else if s[i] != quote {
        QuoteCloseMeans(s, i + 1, quote, e);
      }
    }
  }

  /**
   * Where a value ends, for each way to write it: `open` is its first byte that is no
   * blank. A quoted value ends behind its closing quote. Any other one ends at the end
   * of the line behind `:`; behind `=` it ends at the end of the text if a quote is left
   * open, and else at the first byte that ends a value.
   */
  lemma ValueEndMeans(s: bytes, separator: nat, open: nat, e: nat)
    requires separator < open <= |s| && (s[separator] == 61 || s[separator] == 58)
    requires forall k :: separator < k < open ==> s[k] == 32 || s[k] == 9
    requires open == |s| || (s[open] != 32 && s[open] != 9)
    ensures var quoted := open < |s| && (s[open] == 34 || s[open] == 39);
            var closed := quoted && QuoteClose(s, open + 1, s[open]).Some?;
            ValueEnd(s, separator) == e
            <==> if closed then open + 1 < e <= |s| && s[e - 1] == s[open] && IsInside(s, open + 1, e - 1, s[open])
                 else if s[separator] == 58 then
                   && separator < e <= |s| && (forall k :: separator < k < e ==> s[k] != 10 && s[k] != 13)
                   && (e == |s| || s[e] == 10 || s[e] == 13)
                 else if quoted then e == |s|
                 else
                   && separator < e <= |s| && (forall k :: separator < k < e ==> !MayEndValue(s[k]))
                   && (e == |s| || MayEndValue(s[e]))
  {
    hide QuoteClose;
    hide HeaderValueEnd;
    hide BareValueEnd;
    hide BlanksEnd;
    hide IsInside;
    BlanksEndMeans(s, separator + 1, open);
    assert BlanksEnd(s, separator + 1) == open;
    HeaderValueEndMeans(s, separator + 1, e);
    BareValueEndMeans(s, separator + 1, e);
    if open < |s| && IsQuote(s[open]) {
      QuoteCloseMeans(s, open + 1, s[open], e);
    }
  }
}
