/**
 * The field validators of the application settings (app/utils/settings.py):
 * the CORS origin list, the database connection string and the JWT signing
 * algorithm.
 */
module Settings {
  import opened Wrappers

  // ---------------------------------------------------------------------
  // BACKEND_CORS_ORIGINS
  // ---------------------------------------------------------------------

  /** The raw value handed to the validator: a text, a list of texts, or anything else. */
  datatype CorsValue = CorsText(text: string) | CorsList(items: seq<string>) | CorsOther

  /** `str.isspace()`: the characters Python's `strip()` removes by default. */
  predicate IsSpace(c: char)
  {
    || '\t' <= c <= '\r'
    || '\U{1C}' <= c <= ' '
    || c == '\U{85}' || c == '\U{A0}' || c == '\U{1680}'
    || '\U{2000}' <= c <= '\U{200A}'
    || c == '\U{2028}' || c == '\U{2029}' || c == '\U{202F}' || c == '\U{205F}' || c == '\U{3000}'
  }

  /** Drops leading whitespace. */
  function StripStart(s: string): (r: string)
    ensures |r| <= |s| && r == s[|s| - |r|..]
    ensures forall i :: 0 <= i < |s| - |r| ==> IsSpace(s[i])
    ensures r == [] || !IsSpace(r[0])
  {
    if s != [] && IsSpace(s[0]) then StripStart(s[1..]) else s
  }

  /** Drops trailing whitespace. */
  function StripEnd(s: string): (r: string)
    ensures |r| <= |s| && r == s[..|r|]
    ensures forall i :: |r| <= i < |s| ==> IsSpace(s[i])
    ensures r == [] || !IsSpace(r[|r| - 1])
  {
    if s != [] && IsSpace(s[|s| - 1]) then StripEnd(s[..|s| - 1]) else s
  }

  /** `str.strip()`: the text between the leading and the trailing whitespace. */
  function Strip(s: string): (r: string)
  {
    StripEnd(StripStart(s))
  }

  /** How many whitespace characters `strip()` removes from the front of `s`. */
  function LeadingSpace(s: string): nat
  {
    |s| - |StripStart(s)|
  }

  /** A prefix of a suffix is the slice between them. */
  lemma SliceOfSuffix(s: string, t: string, r: string)
    requires |t| <= |s| && t == s[|s| - |t|..]
    requires |r| <= |t| && r == t[..|r|]
    ensures r == s[|s| - |t|..|s| - |t| + |r|]
    ensures forall i :: |s| - |t| + |r| <= i < |s| ==> s[i] == t[i - (|s| - |t|)]
  {
  }

  /** The stripped text is the slice of the original after the leading whitespace. */
  lemma StripIsSlice(s: string)
    ensures LeadingSpace(s) + |Strip(s)| <= |s|
    ensures Strip(s) == s[LeadingSpace(s)..LeadingSpace(s) + |Strip(s)|]
  {
    var t := StripStart(s);
    var r := StripEnd(t);
    SliceOfSuffix(s, t, r);
  }

  /** The stripped text neither starts nor ends with whitespace. */
  lemma StripEndsWithoutSpace(s: string)
    ensures Strip(s) == [] || (!IsSpace(Strip(s)[0]) && !IsSpace(Strip(s)[|Strip(s)| - 1]))
  {
    var t := StripStart(s);
    var r := StripEnd(t);
    if r != [] {
      assert r[0] == t[0];
    }
  }

  /** What holds after the kept prefix of a suffix holds after the slice in the whole text. */
  lemma TailOfSuffix(s: string, t: string, r: string, p: char -> bool)
    requires |t| <= |s| && t == s[|s| - |t|..] && |r| <= |t|
    requires forall i :: |r| <= i < |t| ==> p(t[i])
    ensures forall i :: |s| - |t| + |r| <= i < |s| ==> p(s[i])
  {
    forall i | |s| - |t| + |r| <= i < |s| ensures p(s[i]) {
      assert s[i] == t[i - (|s| - |t|)];
    }
  }

  /** Only whitespace follows the stripped text. */
  lemma StripDropsTrailingSpace(s: string)
    ensures forall i :: LeadingSpace(s) + |Strip(s)| <= i < |s| ==> IsSpace(s[i])
  {
    var t := StripStart(s);
    TailOfSuffix(s, t, StripEnd(t), IsSpace);
  }

  /** The stripped text sits inside the original with only whitespace around it. */
  lemma StripCorrect(s: string)
    ensures Strip(s) == [] || (!IsSpace(Strip(s)[0]) && !IsSpace(Strip(s)[|Strip(s)| - 1]))
    ensures LeadingSpace(s) + |Strip(s)| <= |s|
    ensures Strip(s) == s[LeadingSpace(s)..LeadingSpace(s) + |Strip(s)|]
    ensures forall i :: 0 <= i < LeadingSpace(s) ==> IsSpace(s[i])
    ensures forall i :: LeadingSpace(s) + |Strip(s)| <= i < |s| ==> IsSpace(s[i])
  {
    StripIsSlice(s);
    StripEndsWithoutSpace(s);
    StripDropsTrailingSpace(s);
  }

  /** Stripping twice is stripping once. */
  lemma StripIdempotent(s: string)
    ensures Strip(Strip(s)) == Strip(s)
  {
  }

  function CountChar(s: string, c: char): nat
  {
    if s == [] then 0 else (if s[0] == c then 1 else 0) + CountChar(s[1..], c)
  }

  /** `s.split(",")`: the pieces between commas, one more than there are commas. */
  function SplitCommas(s: string): (parts: seq<string>)
    ensures |parts| == CountChar(s, ',') + 1
    ensures forall i :: 0 <= i < |parts| ==> ',' !in parts[i]
  {
    if s == [] then [""]
    else if s[0] == ',' then [""] + SplitCommas(s[1..])
    else
      var rest := SplitCommas(s[1..]);
      [[s[0]] + rest[0]] + rest[1..]
  }

  /** `",".join(parts)`. */
  function JoinCommas(parts: seq<string>): string
  {
    if parts == [] then "" else if |parts| == 1 then parts[0] else parts[0] + "," + JoinCommas(parts[1..])
  }

  /** Splitting at commas loses nothing: joining the pieces gives the text back. */
  lemma {:induction false} SplitJoinRoundTrip(s: string)
    ensures JoinCommas(SplitCommas(s)) == s
  {
    if s != [] {
      SplitJoinRoundTrip(s[1..]);
      var rest := SplitCommas(s[1..]);
      if s[0] == ',' {
        assert SplitCommas(s) == [""] + rest;
        assert JoinCommas(SplitCommas(s)) == "" + "," + JoinCommas(rest);
      } else {
        var parts := SplitCommas(s);
        assert parts[0] == [s[0]] + rest[0] && parts[1..] == rest[1..];
        if |rest| == 1 {
          assert JoinCommas(parts) == [s[0]] + rest[0];
        } else {
          assert JoinCommas(rest) == rest[0] + "," + JoinCommas(rest[1..]);
          assert JoinCommas(parts) == ([s[0]] + rest[0]) + "," + JoinCommas(rest[1..]);
        }
      }
    }
  }

  /** Each piece stripped. */
  function StripAll(parts: seq<string>): seq<string>
  {
    seq(|parts|, i requires 0 <= i < |parts| => Strip(parts[i]))
  }

  predicate StartsWithBracket(s: string)
  {
    |s| > 0 && s[0] == '['
  }

  /**
   * `assemble_cors_origins`: a text not starting with "[" becomes the list of
   * its comma-separated pieces, each stripped; a list, or a text starting with
   * "[", is passed through; any other value is refused with ValueError.
   */
  function AssembleCorsOrigins(v: CorsValue): (r: Result<CorsValue, CorsValue>)
    ensures r.Err? <==> v.CorsOther?
    ensures r.Err? ==> r.error == v
    ensures v.CorsList? || (v.CorsText? && StartsWithBracket(v.text)) ==> r == Ok(v)
    ensures v.CorsText? && !StartsWithBracket(v.text) ==>
              && r.Ok? && r.value.CorsList?
              && |r.value.items| == CountChar(v.text, ',') + 1
              && forall i :: 0 <= i < |r.value.items| ==>
                   ',' !in r.value.items[i] && r.value.items[i] == Strip(SplitCommas(v.text)[i])
  {
    match v
    case CorsText(text) =>
      if !StartsWithBracket(text) then Ok(CorsList(StripAll(SplitCommas(text)))) else Ok(v)
    case CorsList(_) => Ok(v)
    case CorsOther => Err(v)
  }

  /** A stripped piece never contains a comma: stripping only removes characters. */
  lemma StrippedPieceHasNoComma(piece: string)
    requires ',' !in piece
    ensures ',' !in Strip(piece)
  {
    StripCorrect(piece);
    var r, k := Strip(piece), LeadingSpace(piece);
    forall i | 0 <= i < |r| ensures r[i] != ',' {
      assert r[i] == piece[k + i];
    }
  }

  /** Splitting a text that does not start with a comma extends the first piece. */
  lemma SplitCons(c: char, s: string)
    requires c != ','
    ensures SplitCommas([c] + s) == [[c] + SplitCommas(s)[0]] + SplitCommas(s)[1..]
  {
    assert ([c] + s)[1..] == s;
  }

  /** "a, b" splits into "a" and " b". */
  lemma SplitExample()
    ensures SplitCommas("a, b") == ["a", " b"]
  {
    assert SplitCommas("") == [""];
    SplitCons('b', "");
    assert ['b'] + "" == "b";
    SplitCons(' ', "b");
    assert [' '] + "b" == " b";
    assert ", b"[1..] == " b";
    assert SplitCommas(", b") == ["", " b"];
    SplitCons('a', ", b");
    assert ['a'] + ", b" == "a, b" && ['a'] + "" == "a";
  }

  /** Stripping "a" keeps it. */
  lemma StripKeepsWord()
    ensures Strip("a") == "a"
  {
    assert !IsSpace('a');
    assert StripStart("a") == "a";
    assert StripEnd("a") == "a";
  }

  /** Stripping " b" drops the space. */
  lemma StripDropsSpace()
    ensures Strip(" b") == "b"
  {
    assert " b"[1..] == "b";
    assert IsSpace(' ') && !IsSpace('b');
    var t := StripStart(" b");
    assert t == StripStart("b");
    assert t == "b";
    assert StripEnd("b") == "b";
  }

  /** Example: "a, b" yields the two origins "a" and "b", the space stripped. */
  lemma CorsExample()
    ensures AssembleCorsOrigins(CorsText("a, b")) == Ok(CorsList(["a", "b"]))
  {
    SplitExample();
    StripKeepsWord();
    StripDropsSpace();
    var pieces := StripAll(["a", " b"]);
    assert pieces == ["a", "b"];
  }

  // ---------------------------------------------------------------------
  // DATABASE_URI
  // ---------------------------------------------------------------------

  /** The other settings the validator reads; each may be missing. */
  datatype DsnSources = DsnSources(
    user: Option<string>,
    password: Option<string>,
    server: Option<string>,
    db: Option<string>)

  /** Either the text given explicitly, or the parts a PostgreSQL DSN is built from. */
  datatype DatabaseUri =
    | GivenUri(uri: string)
    | BuiltDsn(scheme: string, user: Option<string>, password: Option<string>, host: string, path: string)

  const DefaultHost: string := "127.0.0.1"

  /** `assemble_db_connection`. */
  function AssembleDbConnection(v: Option<string>, values: DsnSources): (r: DatabaseUri)
    ensures v.Some? ==> r == GivenUri(v.value)
    ensures v.None? ==>
              && r.BuiltDsn? && r.scheme == "postgresql"
              && r.user == values.user && r.password == values.password
              && r.host == (if Truthy(values.server) then values.server.value else "127.0.0.1")
              && |r.path| >= 1 && r.path[0] == '/'
              && r.path[1..] == (if values.db.Some? then values.db.value else "")
  {
    if v.Some? then GivenUri(v.value)
    else
      var host := if Truthy(values.server) then values.server.value else DefaultHost;
      var db := if Truthy(values.db) then values.db.value else "";
      BuiltDsn("postgresql", values.user, values.password, host, "/" + db)
  }

  // ---------------------------------------------------------------------
  // ALGORITHM
  // ---------------------------------------------------------------------

  /** The keys of python-jose's `ALGORITHMS.HASHES` table. */
  const HashAlgorithms: seq<string> :=
    ["HS256", "HS384", "HS512", "RS256", "RS384", "RS512", "ES256", "ES384", "ES512"]

  /** The JWS "alg" values of section 3.1 of RFC 7518. */
  const JwsAlgorithms: set<string> :=
    {"HS256", "HS384", "HS512", "RS256", "RS384", "RS512",
     "ES256", "ES384", "ES512", "PS256", "PS384", "PS512", "none"}

  const DefaultAlgorithm: string := "HS256"

  datatype AlgorithmError = UnsupportedAlgorithm(rejected: string, supported: seq<string>)

  /** `check_algorithm`: the name is kept if it is a key of the hash table, else ValueError. */
  function CheckAlgorithm(v: string): (r: Result<string, AlgorithmError>)
    ensures r.Ok? <==> v in HashAlgorithms
    ensures r.Ok? ==> r.value == v
    ensures r.Err? ==> r.error.supported == HashAlgorithms
  {
    if v in HashAlgorithms then Ok(v) else Err(UnsupportedAlgorithm(v, HashAlgorithms))
  }

  /**
   * Every accepted name is a JWS signing algorithm of RFC 7518 section 3.1,
   * "none" and the RSASSA-PSS names are refused, and the default is accepted.
   */
  lemma AcceptedAlgorithmsAreJws(v: string)
    ensures CheckAlgorithm(v).Ok? ==> v in JwsAlgorithms && v != "none"
    ensures CheckAlgorithm("none").Err? && CheckAlgorithm("PS256").Err?
    ensures CheckAlgorithm(DefaultAlgorithm) == Ok(DefaultAlgorithm)
  {
  }
}
