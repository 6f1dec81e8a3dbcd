/** The asset URL printer and the request path parser (vyuh/src/assets.rs), on UTF-8 byte strings. */
module Assets {
  import opened Wrappers
  import opened Bytes

  const QUERY: byte := 63
  const FRAGMENT: byte := 35
  const NUL: byte := 0

  /** The control characters and the punctuation a path segment escapes. */
  const ASSET_SEGMENT: set<byte> :=
    (set b: byte | b < 32) + {127, 32, 34, 35, 37, 47, 60, 62, 63, 92, 96, 123, 125}

  datatype AssetUrlError = NotRelative | NotUtf8 | EmptyOrTraversal | Separators

  // ---------------------------------------------------------------------------
  // Printing
  // ---------------------------------------------------------------------------

  function SegmentError(segment: bytes): Option<AssetUrlError> {
    var decoded := PercentDecode(segment);
    if !ValidUtf8(decoded) then Some(NotUtf8)
    else if segment == [] || decoded == [] || decoded == [DOT] || decoded == [DOT, DOT] then Some(EmptyOrTraversal)
    else if SLASH in decoded || BACKSLASH in decoded || NUL in decoded then Some(Separators)
    else None
  }

  /** The first segment that is refused decides the error. */
  function SegmentsError(segs: seq<bytes>): Option<AssetUrlError> {
    if segs == [] then None
    else if SegmentError(segs[0]).Some? then SegmentError(segs[0])
    else SegmentsError(segs[1..])
  }

  method ValidateSegments(value: bytes) returns (r: Result<(), AssetUrlError>)
    ensures SegmentsError(Split(value)) == if r.Ok? then None else Some(r.error)
  {
    var segs := Split(value);
    for k := 0 to |segs|
      invariant SegmentsError(segs) == SegmentsError(segs[k..])
    {
      var decoded := PercentDecode(segs[k]);
      if !ValidUtf8(decoded) {
        return Err(NotUtf8);
      }
      if segs[k] == [] || decoded == [] || decoded == [DOT] || decoded == [DOT, DOT] {
        return Err(EmptyOrTraversal);
      }
      if SLASH in decoded || BACKSLASH in decoded || NUL in decoded {
        return Err(Separators);
      }
    }
    return Ok(());
  }

  function ValidateAssetPath(path: bytes): Result<(), AssetUrlError> {
    if path == [] || path[0] == SLASH || QUERY in path || FRAGMENT in path then Err(NotRelative)
    else if SegmentsError(Split(path)).Some? then Err(SegmentsError(Split(path)).value)
    else Ok(())
  }

  function EncodeAll(segs: seq<bytes>): (r: seq<bytes>)
    ensures |r| == |segs|
  {
    seq(|segs|, i requires 0 <= i < |segs| => PercentEncode(segs[i], ASSET_SEGMENT))
  }

  function EncodePath(path: bytes): bytes {
    Join(EncodeAll(Split(path)))
  }

  function Url(staticUrl: bytes, path: bytes): Result<bytes, AssetUrlError> {
    if ValidateAssetPath(path).Err? then Err(ValidateAssetPath(path).error)
    else Ok(staticUrl + EncodePath(path))
  }

  // ---------------------------------------------------------------------------
  // Parsing
  // ---------------------------------------------------------------------------

  function TrimSlashes(s: bytes): (r: bytes)
    ensures r == [] || r[0] != SLASH
  {
    if s != [] && s[0] == SLASH then TrimSlashes(s[1..]) else s
  }

  predicate Good(seg: bytes) {
    seg != [] && seg != [DOT] && seg != [DOT, DOT] && BACKSLASH !in seg && NUL !in seg && SLASH !in seg
  }

  function NonEmpty(segs: seq<bytes>): (r: seq<bytes>)
    ensures forall x :: x in r <==> x in segs && x != []
  {
    if segs == [] then []
    else if segs[0] == [] then NonEmpty(segs[1..]) else [segs[0]] + NonEmpty(segs[1..])
  }

  /** What a decoded path cleans to: its non-empty segments, if all of them are good. */
  function Cleaned(decoded: bytes): Option<bytes> {
    var segs := NonEmpty(Split(decoded));
    if ValidUtf8(decoded) && forall i :: 0 <= i < |segs| ==> Good(segs[i]) then Some(Join(segs)) else None
  }

  lemma {:induction false} JoinSnoc(segs: seq<bytes>, x: bytes)
    ensures Join(segs + [x]) == if segs == [] then x else Join(segs) + [SLASH] + x
  {
    if |segs| == 1 {
      assert (segs + [x])[1..] == [x];
    } else if |segs| > 1 {
      assert (segs + [x])[1..] == segs[1..] + [x];
      JoinSnoc(segs[1..], x);
    }
  }

  lemma {:induction false} NonEmptySnoc(segs: seq<bytes>, x: bytes)
    ensures NonEmpty(segs + [x]) == NonEmpty(segs) + if x == [] then [] else [x]
  {
    if segs != [] {
      assert (segs + [x])[1..] == segs[1..] + [x];
      NonEmptySnoc(segs[1..], x);
    }
  }

  lemma JoinNotEmpty(segs: seq<bytes>)
    requires forall i :: 0 <= i < |segs| ==> segs[i] != []
    ensures Join(segs) == [] <==> segs == []
  {
  }

  /** A backslash anywhere in a text is in one of its segments. */
  lemma {:induction false} InSomeSegment(s: bytes, b: byte)
    requires b != SLASH
    ensures b in s <==> exists i :: 0 <= i < |Split(s)| && b in Split(s)[i]
  {
    if s != [] {
      InSomeSegment(s[1..], b);
      var rest, segs := Split(s[1..]), Split(s);
      assert s == [s[0]] + s[1..];
      if b in s {
        if s[0] == b {
          assert b in segs[0];
        } else {
          var i :| 0 <= i < |rest| && b in rest[i];
          assert if s[0] == SLASH then segs[i + 1] == rest[i] else i == 0 || segs[i] == rest[i];
          if s[0] != SLASH && i == 0 {
            assert b in segs[0];
          }
        }
      }
      if i :| 0 <= i < |segs| && b in segs[i] {
        assert if s[0] == SLASH then i > 0 && segs[i] == rest[i - 1]
               else if i == 0 then segs[0] == [s[0]] + rest[0] else segs[i] == rest[i];
      }
    }
  }

  lemma BadSegment(decoded: bytes, seg: bytes)
    requires seg in Split(decoded) && seg != [] && !Good(seg)
    ensures Cleaned(decoded) == None
  {
    assert seg in NonEmpty(Split(decoded));
  }

  lemma BadBackslash(decoded: bytes)
    requires BACKSLASH in decoded
    ensures Cleaned(decoded) == None
  {
    InSomeSegment(decoded, BACKSLASH);
    var i :| 0 <= i < |Split(decoded)| && BACKSLASH in Split(decoded)[i];
    BadSegment(decoded, Split(decoded)[i]);
  }

  lemma GoodSegment(decoded: bytes, seg: bytes)
    requires BACKSLASH !in decoded && seg in Split(decoded)
    requires seg != [] && seg != [DOT] && seg != [DOT, DOT] && NUL !in seg
    ensures Good(seg)
  {
    InSomeSegment(decoded, BACKSLASH);
  }

  lemma CleanedSnoc(segs: seq<bytes>, seg: bytes)
    requires seg != []
    ensures Join(NonEmpty(segs + [seg])) ==
            (if Join(NonEmpty(segs)) == [] then [] else Join(NonEmpty(segs)) + [SLASH]) + seg
  {
    NonEmptySnoc(segs, seg);
    assert forall i :: 0 <= i < |NonEmpty(segs)| ==> NonEmpty(segs)[i] in NonEmpty(segs);
    JoinNotEmpty(NonEmpty(segs));
    JoinSnoc(NonEmpty(segs), seg);
  }

  method CleanRelPath(rawPath: bytes) returns (r: Option<bytes>)
    ensures r == Cleaned(PercentDecode(TrimSlashes(rawPath)))
  {
    var decoded := PercentDecode(TrimSlashes(rawPath));
    if !ValidUtf8(decoded) {
      return None;
    }
    if BACKSLASH in decoded {
      BadBackslash(decoded);
      return None;
    }
    var segs := Split(decoded);
    var out := [];
    for k := 0 to |segs|
      invariant out == Join(NonEmpty(segs[..k]))
      invariant forall i :: 0 <= i < k ==> segs[i] == [] || Good(segs[i])
    {
      var seg := segs[k];
      assert segs[..k + 1] == segs[..k] + [seg];
      if seg == [] {
        NonEmptySnoc(segs[..k], seg);
        assert NonEmpty(segs[..k + 1]) == NonEmpty(segs[..k]);
        continue;
      }
      if seg == [DOT] || seg == [DOT, DOT] {
        BadSegment(decoded, seg);
        return None;
      }
      if NUL in seg {
        BadSegment(decoded, seg);
        return None;
      }
      CleanedSnoc(segs[..k], seg);
      GoodSegment(decoded, seg);
      if out != [] {
        out := out + [SLASH];
      }
      out := out + seg;
    }
    assert segs[..|segs|] == segs;
    AllGood(segs);
    return Some(out);
  }

  lemma AllGood(segs: seq<bytes>)
    requires forall i :: 0 <= i < |segs| ==> segs[i] == [] || Good(segs[i])
    ensures forall i :: 0 <= i < |NonEmpty(segs)| ==> Good(NonEmpty(segs)[i])
  {
    assert forall x :: x in NonEmpty(segs) ==> Good(x);
  }

  predicate AllSlashes(s: bytes) {
    forall i :: 0 <= i < |s| ==> s[i] == SLASH
  }

  /** What is left of a text without the slashes at both of its ends. */
  ghost predicate Trims(s: bytes, mid: bytes) {
    && (mid != [] ==> mid[0] != SLASH && mid[|mid| - 1] != SLASH)
    && exists left: bytes, right: bytes :: AllSlashes(left) && AllSlashes(right) && s == left + mid + right
  }

  /** Only an empty folder has an empty prefix; any other is trimmed of its outer slashes and ends in exactly one. */
  method NormalizePrefix(folder: bytes) returns (r: bytes)
    ensures r == [] <==> folder == []
    ensures r != [] ==> r[|r| - 1] == SLASH && Trims(folder, r[..|r| - 1])
    ensures r == NormalizedPrefix(folder)
  {
    if folder == [] {
      return [];
    }
    r := TrimEnd(TrimSlashes(folder));
    TrimmedBothEnds(folder);
    r := r + [SLASH];
    assert r[..|r| - 1] == TrimEnd(TrimSlashes(folder));
  }

  function TrimEnd(s: bytes): bytes {
    if s != [] && s[|s| - 1] == SLASH then TrimEnd(s[..|s| - 1]) else s
  }

  lemma {:induction false} TrimmedStart(s: bytes) returns (left: bytes)
    ensures AllSlashes(left) && s == left + TrimSlashes(s)
  {
    if s != [] && s[0] == SLASH {
      var rest := TrimmedStart(s[1..]);
      left := [SLASH] + rest;
      assert s == [s[0]] + s[1..];
    } else {
      left := [];
    }
  }

  lemma {:induction false} TrimmedEnd(s: bytes) returns (right: bytes)
    ensures AllSlashes(right) && s == TrimEnd(s) + right
    ensures TrimEnd(s) != [] ==> TrimEnd(s)[|TrimEnd(s)| - 1] != SLASH
  {
    if s != [] && s[|s| - 1] == SLASH {
      var rest := TrimmedEnd(s[..|s| - 1]);
      right := rest + [SLASH];
      assert s == s[..|s| - 1] + [s[|s| - 1]];
    } else {
      right := [];
    }
  }

  lemma TrimmedBothEnds(s: bytes)
    ensures Trims(s, TrimEnd(TrimSlashes(s)))
  {
    var left := TrimmedStart(s);
    var right := TrimmedEnd(TrimSlashes(s));
    var mid := TrimEnd(TrimSlashes(s));
    assert s == left + mid + right;
    if mid != [] {
      assert TrimSlashes(s)[0] == mid[0];
    }
  }

  function NormalizedPrefix(folder: bytes): bytes {
    if folder == [] then [] else TrimEnd(TrimSlashes(folder)) + [SLASH]
  }

  function StripUrlPrefix(path: bytes, prefix: bytes): Option<bytes> {
    if prefix == [] then Some(path)
    else if path == TrimEnd(prefix) then Some([])
    else if !(prefix <= path) then Some(path)
    else
      var rest := path[|prefix|..];
      if rest != [] && rest[0] == SLASH then Some(rest[1..]) else Some(path)
  }

  // ---------------------------------------------------------------------------
  // Facts
  // ---------------------------------------------------------------------------

  /** A relative path every segment of which may be served. */
  ghost predicate CleanPath(path: bytes) {
    && ValidUtf8(path)
    && (path == [] || forall i :: 0 <= i < |Split(path)| ==> Good(Split(path)[i]))
  }

  lemma {:induction false} NonEmptyAll(segs: seq<bytes>)
    requires forall i :: 0 <= i < |segs| ==> segs[i] != []
    ensures NonEmpty(segs) == segs
  {
    if segs != [] {
      NonEmptyAll(segs[1..]);
    }
  }

  lemma DecodeEncodedPath(path: bytes)
    ensures PercentDecode(EncodePath(path)) == path
  {
    var segs := Split(path);
    DecodeJoin(EncodeAll(segs));
    forall i | 0 <= i < |segs|
      ensures DecodeAll(EncodeAll(segs))[i] == segs[i]
    {
      DecodeEncode(segs[i], ASSET_SEGMENT);
    }
    assert DecodeAll(EncodeAll(segs)) == segs;
    JoinSplit(path);
  }

  /** The encoded form of a path starts with a slash only when the path does. */
  lemma EncodedStart(path: bytes)
    requires path == [] || path[0] != SLASH
    ensures EncodePath(path) == [] || EncodePath(path)[0] != SLASH
  {
    if path != [] {
      var segs := Split(path);
      assert segs[0] != [] && segs[0][0] == path[0];
      assert EncodeByte(segs[0][0], ASSET_SEGMENT)[0] != SLASH;
      assert EncodePath(path)[0] == PercentEncode(segs[0], ASSET_SEGMENT)[0];
    }
  }

  lemma CleanStart(path: bytes)
    requires CleanPath(path)
    ensures path == [] || path[0] != SLASH
  {
    if path != [] {
      assert Good(Split(path)[0]);
    }
  }

  /** A clean path survives printing and parsing. */
  lemma CleanIsFixpoint(path: bytes)
    requires CleanPath(path)
    ensures Cleaned(PercentDecode(TrimSlashes([SLASH] + EncodePath(path)))) == Some(path)
  {
    CleanStart(path);
    EncodedStart(path);
    assert ([SLASH] + EncodePath(path))[1..] == EncodePath(path);
    assert TrimSlashes([SLASH] + EncodePath(path)) == TrimSlashes(EncodePath(path)) == EncodePath(path);
    DecodeEncodedPath(path);
    if path != [] {
      NonEmptyAll(Split(path));
      JoinSplit(path);
    }
  }

  /** The static checks let only clean paths through. */
  lemma ValidatedIsClean(path: bytes)
    requires ValidUtf8(path) && ValidateAssetPath(path).Ok?
    ensures CleanPath(path)
  {
    forall i | 0 <= i < |Split(path)|
      ensures Good(Split(path)[i])
    {
      SegmentsAccepted(Split(path), i);
      SegmentAccepted(Split(path)[i]);
    }
  }

  lemma {:induction false} SegmentsAccepted(segs: seq<bytes>, i: nat)
    requires SegmentsError(segs) == None && i < |segs|
    ensures SegmentError(segs[i]) == None
  {
    if i > 0 {
      SegmentsAccepted(segs[1..], i - 1);
    }
  }

  lemma SegmentAccepted(seg: bytes)
    requires SegmentError(seg) == None && SLASH !in seg
    ensures Good(seg)
  {
    if BACKSLASH in seg {
      DecodeKeeps(seg, BACKSLASH);
    }
    if NUL in seg {
      DecodeKeeps(seg, NUL);
    }
    assert PercentDecode([DOT]) == [DOT];
    assert PercentDecode([DOT, DOT]) == [DOT, DOT] by {
      assert [DOT, DOT][1..] == [DOT];
    }
  }

  /** Every asset URL path leads the parser back to the very asset it was printed for. */
  lemma PrintedPathIsParsed(path: bytes)
    requires ValidUtf8(path) && ValidateAssetPath(path).Ok?
    ensures Cleaned(PercentDecode(TrimSlashes([SLASH] + EncodePath(path)))) == Some(path)
  {
    ValidatedIsClean(path);
    CleanIsFixpoint(path);
  }

  /** The printer accepts a relative path, without a query or a fragment, every segment of which decodes to the name of
      a file or folder; it decodes once more than the parser will, so that neither reading leaves the folder. */
  lemma UrlAccepts(staticUrl: bytes, path: bytes)
    ensures Url(staticUrl, path).Ok? <==>
            && path != [] && path[0] != 47 && 63 !in path && 35 !in path
            && forall i :: 0 <= i < |Split(path)| ==> NamesFile(PercentDecode(Split(path)[i]))
  {
    AllNameFiles(Split(path));
    assert ValidateAssetPath(path).Ok? <==>
           path != [] && path[0] != 47 && 63 !in path && 35 !in path && SegmentsError(Split(path)) == None;
  }

  lemma AllNameFiles(segs: seq<bytes>)
    ensures SegmentsError(segs) == None <==> forall i :: 0 <= i < |segs| ==> NamesFile(PercentDecode(segs[i]))
  {
    if SegmentsError(segs) == None {
      forall i | 0 <= i < |segs|
        ensures NamesFile(PercentDecode(segs[i]))
      {
        SegmentsAccepted(segs, i);
      }
    } else {
      var i := FirstRefused(segs);
      assert !NamesFile(PercentDecode(segs[i]));
    }
  }

  /** UTF-8, not empty, "." or "..", and without '/', '\\' and NUL. */
  predicate NamesFile(name: bytes) {
    ValidUtf8(name) && name != [] && name != [46] && name != [46, 46] && 47 !in name && 92 !in name && 0 !in name
  }

  /** The error is that of the first segment with one. */
  lemma {:induction false} FirstRefused(segs: seq<bytes>) returns (i: nat)
    requires SegmentsError(segs).Some?
    ensures i < |segs| && SegmentError(segs[i]) == SegmentsError(segs)
    ensures forall j :: 0 <= j < i ==> SegmentError(segs[j]) == None
  {
    if SegmentError(segs[0]).Some? {
      i := 0;
    } else {
      var k := FirstRefused(segs[1..]);
      i := k + 1;
      assert forall j :: 1 <= j < i ==> segs[j] == segs[1..][j - 1];
    }
  }

  /** A URL is the static URL and a path that leads the parser back to the asset, in printable ASCII without quotes,
      brackets, braces, '#', '?', '`' or a backslash. */
  lemma UrlLeadsBack(staticUrl: bytes, path: bytes)
    requires ValidUtf8(path) && Url(staticUrl, path).Ok?
    ensures var url := Url(staticUrl, path).value;
            && staticUrl <= url
            && Cleaned(PercentDecode(TrimSlashes([47] + url[|staticUrl|..]))) == Some(path)
            && forall i :: |staticUrl| <= i < |url| ==> PathByte(url[i])
  {
    var url := Url(staticUrl, path).value;
    assert url[|staticUrl|..] == EncodePath(path);
    PrintedPathIsParsed(path);
    PathIsPlain(path);
    assert forall i :: |staticUrl| <= i < |url| ==> url[i] == EncodePath(path)[i - |staticUrl|];
  }

  predicate PathByte(b: byte) {
    33 <= b <= 126 && b !in {34, 35, 60, 62, 63, 92, 96, 123, 125}
  }

  predicate PathBytes(s: bytes) {
    forall i :: 0 <= i < |s| ==> PathByte(s[i])
  }

  lemma {:induction false} SegmentIsPlain(seg: bytes)
    ensures PathBytes(PercentEncode(seg, ASSET_SEGMENT))
  {
    if seg != [] {
      SegmentIsPlain(seg[1..]);
      assert PathBytes(EncodeByte(seg[0], ASSET_SEGMENT));
    }
  }

  lemma {:induction false} JoinIsPlain(segs: seq<bytes>)
    requires forall i :: 0 <= i < |segs| ==> PathBytes(segs[i])
    ensures PathBytes(Join(segs))
  {
    if |segs| > 1 {
      assert forall i :: 0 <= i < |segs| - 1 ==> segs[1..][i] == segs[i + 1];
      JoinIsPlain(segs[1..]);
    }
  }

  lemma PathIsPlain(path: bytes)
    ensures PathBytes(EncodePath(path))
  {
    forall i | 0 <= i < |Split(path)|
      ensures PathBytes(EncodeAll(Split(path))[i])
    {
      SegmentIsPlain(Split(path)[i]);
    }
    JoinIsPlain(EncodeAll(Split(path)));
  }

  lemma CleanedIsText(decoded: bytes)
    requires Cleaned(decoded).Some?
    ensures ValidUtf8(Cleaned(decoded).value) && CleanPath(Cleaned(decoded).value)
  {
    var all, segs := Split(decoded), NonEmpty(Split(decoded));
    if segs != [] {
      SplitJoin(segs);
      JoinSplit(decoded);
      Utf8Join(all);
      forall i | 0 <= i < |segs|
        ensures ValidUtf8(segs[i])
      {
        assert segs[i] in all;
      }
      Utf8Join(segs);
    }
  }

  /** A name that stays in its folder: not "." or "..", and without a backslash and NUL. */
  predicate Inside(name: bytes) {
    name != [46] && name != [46, 46] && 92 !in name && 0 !in name
  }

  /** The parser accepts exactly the text every segment of which stays inside, and drops the empty ones. */
  lemma CleanedNames(decoded: bytes)
    ensures Cleaned(decoded).Some? <==>
            ValidUtf8(decoded) && forall i :: 0 <= i < |Split(decoded)| ==> Inside(Split(decoded)[i])
    ensures Cleaned(decoded).Some? && Cleaned(decoded).value != [] ==>
              Split(Cleaned(decoded).value) == NonEmpty(Split(decoded))
    ensures Cleaned(decoded) == Some([]) ==> NonEmpty(Split(decoded)) == []
  {
    var all, segs := Split(decoded), NonEmpty(Split(decoded));
    GoodIffInside(all);
    assert forall i :: 0 <= i < |segs| ==> segs[i] in segs;
    JoinNotEmpty(segs);
    if segs != [] {
      assert forall i :: 0 <= i < |segs| ==> segs[i] in all;
      SplitJoin(segs);
    }
  }

  lemma GoodIffInside(all: seq<bytes>)
    requires forall i :: 0 <= i < |all| ==> SLASH !in all[i]
    ensures (forall i :: 0 <= i < |NonEmpty(all)| ==> Good(NonEmpty(all)[i])) <==>
            (forall i :: 0 <= i < |all| ==> Inside(all[i]))
  {
    var segs := NonEmpty(all);
    if forall i :: 0 <= i < |segs| ==> Good(segs[i]) {
      forall i | 0 <= i < |all|
        ensures Inside(all[i])
      {
        assert all[i] != [] ==> all[i] in segs;
      }
    }
    if forall i :: 0 <= i < |all| ==> Inside(all[i]) {
      forall i | 0 <= i < |segs|
        ensures Good(segs[i])
      {
        assert segs[i] in segs && segs[i] in all;
      }
    }
  }

  /** Whatever is requested, an accepted path is clean, and printing and parsing it again gives it back. */
  lemma ParsedPathIsClean(rawPath: bytes)
    ensures var parsed := Cleaned(PercentDecode(TrimSlashes(rawPath)));
            parsed.Some? ==>
              && CleanPath(parsed.value)
              && Cleaned(PercentDecode(TrimSlashes([SLASH] + EncodePath(parsed.value)))) == parsed
  {
    var decoded := PercentDecode(TrimSlashes(rawPath));
    if Cleaned(decoded).Some? {
      CleanedIsText(decoded);
      CleanIsFixpoint(Cleaned(decoded).value);
    }
  }

  /** On parsed paths, removing a normalized prefix keeps the whole path; only the prefix itself becomes empty. */
  lemma StripKeepsCleanPaths(path: bytes, folder: bytes)
    requires CleanPath(path)
    ensures var prefix := NormalizedPrefix(folder);
            StripUrlPrefix(path, prefix) == Some(if prefix != [] && path == TrimEnd(prefix) then [] else path)
  {
    var prefix := NormalizedPrefix(folder);
    if prefix != [] && prefix <= path && |prefix| < |path| && path[|prefix|] == SLASH {
      var n := |prefix| - 1;
      assert path == path[..n] + [SLASH] + ([] + [SLASH] + path[n + 2..]);
      SplitConcat(path[..n], [] + [SLASH] + path[n + 2..]);
      SplitConcat([], path[n + 2..]);
      assert Split(path)[|Split(path[..n])|] == [];
    }
  }
}
