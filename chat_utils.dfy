/** The string helpers of the client (frontend/src/utils/chatUtils.js):
    `isImageUrl`, `getAvatarColor` and `getAvatarText`. JavaScript strings
    are sequences of UTF-16 code units, so the avatar helpers take a
    sequence of `CodeUnit`s. */
module ChatUtils {
  import opened Common

  /** One UTF-16 code unit, what `charCodeAt` and `charAt` see. */
  type CodeUnit = x: int | 0 <= x < 0x1_0000

  /** A JavaScript value handed to `isImageUrl`: a string or anything else. */
  datatype JsValue = JsString(s: string) | NonString

  // ---------------------------------------------------------------------
  // isImageUrl
  // ---------------------------------------------------------------------

  /** The alternatives of the pattern `\.(jpeg|jpg|gif|png|webp)$`. */
  const IMAGE_EXTENSIONS: seq<string> := ["jpeg", "jpg", "gif", "png", "webp"]

  predicate EndsWith(s: string, suffix: string) {
    |suffix| <= |s| && s[|s| - |suffix|..] == suffix
  }

  /** What the pattern matches: the string ends with a dot and one of the
      extensions, in exactly that case. */
  ghost predicate MatchesImagePattern(s: string) {
    exists e :: e in IMAGE_EXTENSIONS && EndsWith(s, "." + e)
  }

  /** The position of the last '.' in `s`, if there is one. */
  function LastDot(s: string): (r: Option<nat>)
    ensures r.Some? ==> r.value < |s| && s[r.value] == '.' && '.' !in s[r.value + 1..]
    ensures r.None? ==> '.' !in s
    decreases |s|
  {
    if s == [] then None
    else if s[|s| - 1] == '.' then Some(|s| - 1)
    else
      var init := s[..|s| - 1];
      var d := LastDot(init);
      if d.Some? then
        assert s[d.value + 1..] == init[d.value + 1..] + [s[|s| - 1]];
        d
      else
        assert s == init + [s[|s| - 1]];
        None
  }

  /** `isImageUrl(url)`: false for anything but a string; for a string,
      whether the text after its last dot is one of the image extensions
      (which contain no dot, so this is the pattern's match). */
  function IsImageUrl(url: JsValue): (r: bool)
    ensures r ==> url.JsString?
  {
    match url
    case NonString => false
    case JsString(s) =>
      var d := LastDot(s);
      d.Some? && s[d.value + 1..] in IMAGE_EXTENSIONS
  }

  /** A dot with no dot after it is the last dot. */
  lemma LastDotUnique(s: string, p: nat)
    requires p < |s| && s[p] == '.' && '.' !in s[p + 1..]
    ensures LastDot(s) == Some(p)
  {
  }

  /** Every string `isImageUrl` accepts ends with "." and an extension. */
  lemma ImageUrlEndsWithExtension(s: string)
    requires IsImageUrl(JsString(s))
    ensures MatchesImagePattern(s)
  {
    var d := LastDot(s).value;
    var e := s[d + 1..];
    assert s[|s| - |"." + e|..] == "." + e;
  }

  /** Every string ending with "." and an extension is accepted. */
  lemma ExtensionEndingIsImageUrl(s: string, e: string)
    requires e in IMAGE_EXTENSIONS && EndsWith(s, "." + e)
    ensures IsImageUrl(JsString(s))
  {
    var p := |s| - |e| - 1;
    assert s[p..] == "." + e;
    assert '.' !in e;
    assert s[p + 1..] == e;
    LastDotUnique(s, p);
  }

  /** `isImageUrl` on a string is true exactly when the string ends with
      "." and one of jpeg, jpg, gif, png, webp, compared case-sensitively. */
  lemma IsImageUrlMatchesPattern(s: string)
    ensures IsImageUrl(JsString(s)) <==> MatchesImagePattern(s)
  {
    if IsImageUrl(JsString(s)) {
      ImageUrlEndsWithExtension(s);
    }
    if MatchesImagePattern(s) {
      var e :| e in IMAGE_EXTENSIONS && EndsWith(s, "." + e);
      ExtensionEndingIsImageUrl(s, e);
    }
  }

  /** A non-string is never an image URL. */
  lemma NonStringIsNotImage()
    ensures !IsImageUrl(NonString)
  {
  }

  /** Appending "." and an image extension to any text gives an image URL,
      and the match is case-sensitive: an upper-case extension does not. */
  lemma {:induction false} ExtensionMakesImageUrl(s: string, e: string)
    requires e in IMAGE_EXTENSIONS
    ensures IsImageUrl(JsString(s + "." + e))
    ensures !IsImageUrl(JsString(s + ".PNG"))
  {
    var t := s + "." + e;
    assert t[|t| - |"." + e|..] == "." + e;
    ExtensionEndingIsImageUrl(t, e);
    var u := s + ".PNG";
    assert '.' !in "PNG";
    assert u[|s| + 1..] == "PNG";
    LastDotUnique(u, |s|);
  }

  // ---------------------------------------------------------------------
  // getAvatarColor
  // ---------------------------------------------------------------------

  const TWO_31: int := 0x8000_0000
  const TWO_32: int := 0x1_0000_0000

  /** ECMAScript ToInt32 on an integer: the value modulo 2^32, read as a
      signed 32-bit integer. */
  function ToInt32(x: int): (r: int)
    ensures -TWO_31 <= r < TWO_31
    ensures (x - r) % TWO_32 == 0
  {
    var m := x % TWO_32;
    if m >= TWO_31 then m - TWO_32 else m
  }

  /** ToInt32 leaves a value that already fits unchanged. */
  lemma ToInt32Fits(x: int)
    requires -TWO_31 <= x < TWO_31
    ensures ToInt32(x) == x
  {
    if x < 0 {
      assert x % TWO_32 == x + TWO_32;
    }
  }

  /** `hash << 5`: both operands go through ToInt32 and the shifted value
      keeps its low 32 bits. */
  function ShiftLeft5(h: int): (r: int)
    ensures -TWO_31 <= r < TWO_31
  {
    ToInt32(ToInt32(h) * 32)
  }

  /** One turn of the loop: `hash = charCode + ((hash << 5) - hash)`. The
      addition and subtraction are on doubles, exact on these integers
      (see `HashBound`). */
  function Step(h: int, c: CodeUnit): int {
    c + (ShiftLeft5(h) - h)
  }

  /** The hash after the loop has consumed all of `s`. */
  function Hash(s: seq<CodeUnit>): int
    decreases |s|
  {
    if s == [] then 0 else Step(Hash(s[..|s| - 1]), s[|s| - 1])
  }

  /** The eight avatar colours, in order. */
  const PALETTE: seq<string> :=
    ["#FF6B6B", "#4ECDC4", "#45B7D1", "#96CEB4", "#FFEAA7", "#DDA0DD", "#98D8C8", "#F7DC6F"]

  function Abs(x: int): nat {
    if x < 0 then -x else x
  }

  /** The colour `getAvatarColor` picks: palette entry |hash| mod 8. */
  function AvatarColorOf(username: seq<CodeUnit>): (r: string)
    ensures r in PALETTE
  {
    PALETTE[Abs(Hash(username)) % |PALETTE|]
  }

  /** `getAvatarColor(username)`, with its loop over the code units. */
  method GetAvatarColor(username: seq<CodeUnit>) returns (color: string)
    ensures color == AvatarColorOf(username)
    ensures color in PALETTE
  {
    var hash := 0;
    var i := 0;
    while i < |username|
      invariant 0 <= i <= |username|
      invariant hash == Hash(username[..i])
    {
      assert username[..i + 1][..i] == username[..i];
      hash := username[i] + (ShiftLeft5(hash) - hash);
      i := i + 1;
    }
    assert username[..|username|] == username;
    color := PALETTE[Abs(hash) % |PALETTE|];
  }

  /** The empty name hashes to 0 and gets the first colour. */
  lemma EmptyNameColor()
    ensures Hash([]) == 0 && AvatarColorOf([]) == "#FF6B6B"
  {
  }

  /** Each code unit moves the hash by at most 2^31 + 2^16, so it stays far
      inside the range where doubles hold integers exactly (2^53) for any
      name shorter than 2^22 code units. */
  lemma {:induction false} HashBound(s: seq<CodeUnit>)
    ensures Abs(Hash(s)) <= |s| * (TWO_31 + 0x1_0000)
    decreases |s|
  {
    if s != [] {
      HashBound(s[..|s| - 1]);
    }
  }

  /** The textbook form of this hash: h * 31 + c over the code units. */
  function Poly31(s: seq<CodeUnit>): (r: nat)
    decreases |s|
  {
    if s == [] then 0 else 31 * Poly31(s[..|s| - 1]) + s[|s| - 1]
  }

  /** While the running hash stays below 2^26 the shift loses no bits, and
      `(hash << 5) - hash` is `hash * 31`. */
  lemma {:induction false} HashIsPolynomialWhileSmall(s: seq<CodeUnit>)
    requires Poly31(s) < 0x400_0000
    ensures Hash(s) == Poly31(s)
    decreases |s|
  {
    if s != [] {
      var init := s[..|s| - 1];
      HashIsPolynomialWhileSmall(init);
      var h := Hash(init);
      ToInt32Fits(h);
      ToInt32Fits(h * 32);
    }
  }

  // ---------------------------------------------------------------------
  // getAvatarText
  // ---------------------------------------------------------------------

  /** "?" as code units. */
  const QUESTION_MARK: seq<CodeUnit> := [0x3F]

  /** `getAvatarText(username)`: "?" for an absent or empty name, otherwise
      `toUpperCase` applied to the first code unit (`charAt(0)`). The
      locale's `toUpperCase` is a parameter. */
  function GetAvatarText(username: Option<seq<CodeUnit>>, toUpperCase: seq<CodeUnit> -> seq<CodeUnit>): (r: seq<CodeUnit>)
    ensures username.None? || username.value == [] ==> r == QUESTION_MARK
  {
    if username.None? || username.value == [] then QUESTION_MARK
    else toUpperCase(username.value[..1])
  }

  /** Only the first code unit of a name decides its avatar text, and with
      a case mapping that keeps single units single the text is one unit. */
  lemma AvatarTextFromFirstUnit(a: seq<CodeUnit>, b: seq<CodeUnit>, toUpperCase: seq<CodeUnit> -> seq<CodeUnit>)
    requires a != [] && b != [] && a[0] == b[0]
    ensures GetAvatarText(Some(a), toUpperCase) == GetAvatarText(Some(b), toUpperCase)
    ensures (forall c: CodeUnit :: |toUpperCase([c])| == 1) ==> |GetAvatarText(Some(a), toUpperCase)| == 1
  {
    assert a[..1] == [a[0]] && b[..1] == [b[0]];
  }
}
