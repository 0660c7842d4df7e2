/**
 Where the file store keeps a key: the directory of the key's prefix, and a file name that is the
 percent-encoded remainder (lij-worker/node/store.js).
 */
module FilePath {
  import opened Text

  predicate IsWordChar(c: char) {
    'A' <= c <= 'Z' || 'a' <= c <= 'z' || IsDigit(c) || c == '_' || c == '-'
  }

  predicate SafeChar(c: char) { IsWordChar(c) || c == ':' }

  predicate WellFormedPrefix(p: string) {
    p != "" && forall i :: 0 <= i < |p| ==> IsWordChar(p[i])
  }

  method EncodeRest(rest: string) returns (out: string)
    ensures out == Percent(rest, SafeChar)
  {
    out := "";
    for i := 0 to |rest|
      invariant Percent(rest, SafeChar) == out + Percent(rest[i..], SafeChar)
    {
      assert rest[i..][0] == rest[i] && rest[i..][1..] == rest[i + 1..];
      out := out + (if SafeChar(rest[i]) then [rest[i]] else EscapeAll(Utf8Char(rest[i])));
    }
  }

  method DecodeRest(enc: string) returns (name: Option<string>)
    ensures name == Utf8Decode(Unescape(enc))
  {
    hide Utf8Decode, HexPair, Unescape;
    var bytes: seq<byte> := [];
    var i := 0;
    assert enc[0..] == enc;
    while i < |enc|
      invariant 0 <= i <= |enc|
      invariant Unescape(enc) == bytes + Unescape(enc[i..])
    {
      var b: byte, width := enc[i] as int % 256, 1;
      if enc[i] == '%' && i + 2 < |enc| {
        b, width := HexPair(enc[i + 1], enc[i + 2]), 3;
      }
      UnescapeStep(enc, i);
      bytes, i := bytes + [b], i + width;
    }
    UnescapeStep(enc, |enc|);
    assert bytes + [] == bytes;
    name := Utf8Decode(bytes);
  }

  lemma UnescapeStep(enc: string, i: nat)
    requires i <= |enc|
    ensures
      Unescape(enc[i..]) ==
      if i == |enc| then []
      else if enc[i] == '%' && i + 2 < |enc| then [HexPair(enc[i + 1], enc[i + 2])] + Unescape(enc[i + 3..])
      else [enc[i] as int % 256] + Unescape(enc[i + 1..])
  {
    hide HexPair;
    if i < |enc| {
      var rest := enc[i..];
      assert rest[1..] == enc[i + 1..] && (|rest| > 2 ==> rest[3..] == enc[i + 3..]);
    }
  }

  /******* Keys and places *******/

  datatype Place = Place(prefix: string, enc: string)

  datatype SplitResult = Ok(place: Place) | EmptyRemainder | BadPrefix | TooLong

  /** The position of the first ':' or the length. */
  function Colon(key: string): (i: nat)
    ensures i <= |key|
    ensures Without(key[..i], ':')
    ensures i < |key| ==> key[i] == ':'
  {
    if key == "" || key[0] == ':' then 0 else 1 + Colon(key[1..])
  }

  function PrefixOf(key: string): string {
    var i := Colon(key);
    if i == |key| || i == 0 then "_" else key[..i]
  }

  function RestOf(key: string): string {
    var i := Colon(key);
    if i == |key| then key else key[i + 1..]
  }

  function Split(key: string): SplitResult {
    var enc := Percent(RestOf(key), SafeChar);
    if RestOf(key) == "" then EmptyRemainder
    else if !WellFormedPrefix(PrefixOf(key)) then BadPrefix
    else if |enc| > 240 then TooLong
    else Ok(Place(PrefixOf(key), enc))
  }

  /** The name a listing gives to the value file found at a place. */
  function NameAt(p: Place): Option<string> {
    match Utf8Decode(Unescape(p.enc))
    case None => None
    case Some(rest) => Some(Labelled(p.prefix, rest))
  }

  /** No ':' at all, or something other than "_" before the first one. */
  predicate Canonical(key: string) {
    Colon(key) == |key| || (Colon(key) > 0 && key[..Colon(key)] != "_")
  }

  function Labelled(prefix: string, rest: string): string {
    (if prefix == "_" then "" else prefix + ":") + rest
  }

  lemma LabelledIff(key: string)
    ensures Labelled(PrefixOf(key), RestOf(key)) == key <==> Canonical(key)
  {
    var i := Colon(key);
    if i < |key| {
      assert key == key[..i] + ":" + key[i + 1..];
      if i == 0 || key[..i] == "_" {
        assert |Labelled(PrefixOf(key), RestOf(key))| < |key|;
      }
    }
  }

  /** The name a listing gives to what is stored under a key. */
  function NameOf(key: string): string { Labelled(PrefixOf(key), RestOf(key)) }

  lemma NameAtIsName(key: string)
    requires Split(key).Ok?
    ensures NameAt(Split(key).place) == Some(NameOf(key))
  {
    PercentRoundTrip(RestOf(key), SafeChar);
  }

  /** The listing gives a stored key back exactly when the key is canonical: ":a" and "_:a" share
      the place of "a". */
  lemma NameAtRecoversIff(key: string)
    requires Split(key).Ok?
    ensures NameAt(Split(key).place) == Some(key) <==> Canonical(key)
  {
    NameAtIsName(key);
    LabelledIff(key);
  }

  /** Of the spellings of one place, the one that stands for it: the canonical one, where there is one. */
  function Principal(key: string): string { Spelling(PrefixOf(key), RestOf(key)) }

  function Spelling(prefix: string, rest: string): string {
    if prefix != "_" then prefix + ":" + rest else if ':' in rest then "_:" + rest else rest
  }

  lemma ColonAt(a: string, rest: string)
    requires Without(a, ':')
    ensures Colon(a + ":" + rest) == |a|
  {
    var key := a + ":" + rest;
    var i := Colon(key);
    assert key[|a|] == ':' && forall j :: 0 <= j < |a| ==> key[j] == a[j];
  }

  lemma NoColon(key: string)
    requires Without(key, ':')
    ensures Colon(key) == |key|
  {
  }

  lemma PrefixHasNoColon(key: string)
    ensures Without(PrefixOf(key), ':')
  {
  }

  /** A key and its principal spelling have one place. */
  lemma PrincipalSplits(key: string)
    ensures PrefixOf(Principal(key)) == PrefixOf(key) && RestOf(Principal(key)) == RestOf(key)
    ensures Split(Principal(key)) == Split(key) && Principal(Principal(key)) == Principal(key)
  {
    hide Colon, Percent;
    var p, rest := PrefixOf(key), RestOf(key);
    PrefixHasNoColon(key);
    if p != "_" {
      ColonAt(p, rest);
      assert (p + ":" + rest)[..|p|] == p && (p + ":" + rest)[|p| + 1..] == rest;
    } else if ':' in rest {
      ColonAt("_", rest);
      assert ("_:" + rest)[..1] == "_" && ("_:" + rest)[2..] == rest && "_" + ":" + rest == "_:" + rest;
    } else {
      NoColon(rest);
    }
  }

  /** A canonical key stands for its place. */
  lemma CanonicalIsPrincipal(key: string)
    requires Canonical(key)
    ensures Principal(key) == key
  {
    var i := Colon(key);
    if i < |key| {
      assert key == key[..i] + ":" + key[i + 1..];
    } else {
      assert Without(key[..i], ':') && key[..i] == key;
    }
  }

  /** Two keys share a place exactly when they have one principal spelling. */
  lemma SamePlaceIff(a: string, b: string)
    requires Split(a).Ok? && Split(b).Ok?
    ensures Split(a).place == Split(b).place <==> Principal(a) == Principal(b)
  {
    PrincipalSplits(a);
    PrincipalSplits(b);
    if Split(a).place == Split(b).place {
      PercentInjective(RestOf(a), RestOf(b), SafeChar);
    }
  }

  lemma PlacesDistinct(a: string, b: string)
    requires Split(a).Ok? && Split(b).Ok? && Canonical(a) && Canonical(b)
    requires Split(a).place == Split(b).place
    ensures a == b
  {
    SamePlaceIff(a, b);
    CanonicalIsPrincipal(a);
    CanonicalIsPrincipal(b);
  }

  /** Outside the canonical keys two keys may share a place. */
  lemma PlacesCollide()
    ensures Split(":a").Ok? && Split("_:a") == Split("a") == Split(":a")
  {
    assert Colon(":a") == 0 && ":a"[1..] == "a";
    assert Colon("a") == 1 by { assert "a"[1..] == ""; }
    assert Colon("_:a") == 1 by { assert "_:a"[1..] == ":a"; }
    assert "_:a"[2..] == "a" && "_:a"[..1] == "_";
    assert Percent("a", SafeChar) == "a" by { assert "a"[1..] == ""; }
  }

  /** What a place is: of a key with a prefix, that directory; of one without, the directory "_"; and a
      remainder that is not empty and takes no more than 240 characters once encoded. */
  lemma SplitIff(prefix: string, rest: string)
    requires Without(prefix, ':') && prefix != ""
    ensures
      Split(prefix + ":" + rest).Ok? <==>
      && rest != "" && |Percent(rest, SafeChar)| <= 240
      && forall i :: 0 <= i < |prefix| ==> Plainest(prefix[i])
    ensures
      Split(prefix + ":" + rest).Ok? ==> Split(prefix + ":" + rest).place == Place(prefix, Percent(rest, SafeChar))
    ensures Without(rest, ':') ==>
      (Split(rest).Ok? <==> rest != "" && |Percent(rest, SafeChar)| <= 240)
      && (Split(rest).Ok? ==> Split(rest).place == Place("_", Percent(rest, SafeChar)))
  {
    hide Percent, Colon;
    ColonAt(prefix, rest);
    var key := prefix + ":" + rest;
    assert key[..|prefix|] == prefix && key[|prefix| + 1..] == rest;
    if Without(rest, ':') { NoColon(rest); }
  }

  /** What needs no encoding in a file's name, and the two characters a prefix may hold beside. */
  predicate Plainest(c: char) {
    'A' <= c <= 'Z' || 'a' <= c <= 'z' || '0' <= c <= '9' || c == '_' || c == '-'
  }

  /** A remainder is its own file name exactly when it is letters, digits, '_', '-' and ':'; any file name
      is those, '%' and upper-case hex. */
  lemma RemainderIff(rest: string)
    ensures
      Percent(rest, SafeChar) == rest <==> forall i :: 0 <= i < |rest| ==> Plainest(rest[i]) || rest[i] == ':'
    ensures
      forall i :: 0 <= i < |Percent(rest, SafeChar)| ==>
        var c := Percent(rest, SafeChar)[i]; Plainest(c) || c == ':' || c == '%'
  {
    PercentPlainIff(rest, SafeChar);
    PercentChars(rest, SafeChar);
    hide Percent;
  }

  /******* File names *******/

  /** The names of one key's files. */
  lemma FilesSpelled(enc: string, tag: string)
    ensures FileName(enc, ValueFile) == enc + ".v" && FileName(enc, SidecarFile) == enc + ".m"
    ensures FileName(enc, TempFile(true, tag)) == enc + ".v" + (".tmp-" + tag)
    ensures FileName(enc, TempFile(false, tag)) == enc + ".m" + (".tmp-" + tag)
  {
    assert "." + "v" == ".v" && "." + "m" == ".m";
    Grouped(enc, 'v', ".tmp-", tag);
    Grouped(enc, 'm', ".tmp-", tag);
  }

  lemma Grouped(enc: string, c: char, mark: string, tag: string)
    ensures enc + "." + ([c] + mark + tag) == enc + ['.', c] + (mark + tag)
  {
  }

  /** The files of one key: the value, the sidecar, and the temporary file each is written as. */
  datatype Kind = ValueFile | SidecarFile | TempFile(ofValue: bool, tag: string)

  function Suffix(k: Kind): string {
    match k
    case ValueFile => "v"
    case SidecarFile => "m"
    case TempFile(ofValue, tag) => (if ofValue then "v" else "m") + ".tmp-" + tag
  }

  function FileName(enc: string, k: Kind): string { enc + "." + Suffix(k) }

  lemma EncodedHasNoDot(rest: string)
    ensures Without(Percent(rest, SafeChar), '.')
  {
    PercentChars(rest, SafeChar);
  }

  lemma SuffixInjective(k: Kind, l: Kind)
    requires Suffix(k) == Suffix(l)
    ensures k == l
  {
    assert k.TempFile? ==> |Suffix(k)| >= 6 && k.tag == Suffix(k)[6..];
    assert l.TempFile? ==> |Suffix(l)| >= 6 && l.tag == Suffix(l)[6..];
    assert Suffix(k)[0] == Suffix(l)[0];
  }

  /** No file of one place is ever a file of another, nor a file of another kind at the same place. */
  lemma FileNamesDistinct(a: string, k: Kind, b: string, l: Kind)
    requires Split(a).Ok? && Split(b).Ok?
    requires Split(a).place.prefix == Split(b).place.prefix
    requires FileName(Split(a).place.enc, k) == FileName(Split(b).place.enc, l)
    ensures k == l && Principal(a) == Principal(b)
    ensures Canonical(a) && Canonical(b) ==> a == b
  {
    EncodedHasNoDot(RestOf(a));
    EncodedHasNoDot(RestOf(b));
    HeadUnique(Split(a).place.enc, Suffix(k), Split(b).place.enc, Suffix(l), '.');
    SuffixInjective(k, l);
    SamePlaceIff(a, b);
    if Canonical(a) && Canonical(b) { PlacesDistinct(a, b); }
  }

  predicate EndsWith(s: string, t: string) { |t| <= |s| && s[|s| - |t|..] == t }

  predicate Contains(s: string, t: string) { exists i :: 0 <= i <= |s| && t <= s[i..] }

  /** How a listing tells value files from the rest. */
  predicate ListedFile(f: string) { EndsWith(f, ".v") && !Contains(f, ".tmp-") }

  /** The listing's test is exact: of the files of a key it takes the value file alone. */
  lemma ListedIffValue(key: string, k: Kind)
    requires Split(key).Ok?
    ensures ListedFile(FileName(Split(key).place.enc, k)) <==> k == ValueFile
    ensures k == ValueFile ==>
      var f := FileName(Split(key).place.enc, k); f[..|f| - 2] == Split(key).place.enc
  {
    var enc := Split(key).place.enc;
    EncodedHasNoDot(RestOf(key));
    hide Percent, Split, ListedFile;
    match k {
      case ValueFile => ValueListed(enc);
      case SidecarFile => SidecarUnlisted(enc);
      case TempFile(ofValue, tag) => TempUnlisted(enc, ofValue, tag);
    }
  }

  lemma ValueListed(enc: string)
    requires Without(enc, '.')
    ensures ListedFile(FileName(enc, ValueFile)) && FileName(enc, ValueFile)[..|enc|] == enc
    ensures |FileName(enc, ValueFile)| == |enc| + 2
  {
    var f := FileName(enc, ValueFile);
    assert f == enc + ".v" && f[|f| - 2..] == ".v";
    forall i | 0 <= i <= |f| ensures !(".tmp-" <= f[i..]) {
      NoInnerDot(enc, i);
    }
  }

  lemma SidecarUnlisted(enc: string)
    ensures !ListedFile(FileName(enc, SidecarFile))
  {
    var f := FileName(enc, SidecarFile);
    assert f[|f| - 2..] == ".m" && ".m"[1] != ".v"[1];
  }

  lemma TempUnlisted(enc: string, ofValue: bool, tag: string)
    ensures !ListedFile(FileName(enc, TempFile(ofValue, tag)))
  {
    var f := FileName(enc, TempFile(ofValue, tag));
    assert f[|enc| + 2..] == ".tmp-" + tag;
    assert Contains(f, ".tmp-");
  }

  lemma NoInnerDot(enc: string, i: nat)
    requires Without(enc, '.') && i <= |enc| + 2
    ensures !(".tmp-" <= (enc + ".v")[i..])
  {
    var f := enc + ".v";
    if |f[i..]| >= 5 {
      assert f[i..][0] == enc[i];
    }
  }
}
