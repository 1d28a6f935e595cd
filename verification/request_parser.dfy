/** helpers/request_parser.go: the list filter taken from the query string,
    its sort-direction normalisation, and the HTML escaping and validation
    applied to every decoded request body. */
module RequestParser {

  import opened Prelude
  import opened Errors
  import opened Seqs

  /** `helpers.Filter` with its embedded `FilterOption`. */
  datatype Filter = Filter(
    limit: int,
    offset: int,
    search: string,
    dir: string,
    sessionId: Uuid,
    studentEnrollId: Uuid,
    classId: Uuid,
    studentId: Uuid,
    subjectId: Uuid,
    lecturerId: Uuid,
    intakeId: Uuid,
    programId: Uuid,
    resultId: Uuid)

  /** The filter the API modules build for their internal listings: the
      given page size, offset 0, and every id filter left at nil. */
  function Paging(limit: int, dir: string): (f: Filter)
    ensures f.limit == limit && f.offset == 0 && f.dir == dir
    ensures f.sessionId == Nil && f.studentEnrollId == Nil && f.classId == Nil && f.studentId == Nil
  {
    Filter(limit, 0, "", dir, Nil, Nil, Nil, Nil, Nil, Nil, Nil, Nil, Nil)
  }

  // ------------------------------------------------------------ sort direction

  function LowerChar(c: char): char {
    if 'A' <= c <= 'Z' then ((c as int) + 32) as char else c
  }

  /** `strings.ToLower`, on the ASCII letters that matter here. */
  function Lower(s: string): (r: string)
    ensures |r| == |s|
    ensures forall i :: 0 <= i < |s| ==> r[i] == LowerChar(s[i])
  {
    Map(s, LowerChar)
  }

  /** A direction the filter keeps: "asc" or "desc" in any letter case. */
  predicate IsSortDir(dir: string) {
    Lower(dir) == "asc" || Lower(dir) == "desc"
  }

  /** The `Dir` normalisation of `ParseFilter`. */
  function NormalizeDir(dir: string): (r: string)
    ensures IsSortDir(r)
    ensures r == dir <==> IsSortDir(dir)
    ensures !IsSortDir(dir) ==> r == "ASC"
  {
    AscIsSortDir();
    if Lower(dir) != "asc" && Lower(dir) != "desc" then "ASC" else dir
  }

  lemma AscIsSortDir()
    ensures Lower("ASC") == "asc"
  {
    assert Lower("ASC") == [LowerChar('A'), LowerChar('S'), LowerChar('C')];
  }

  /** Normalising twice is normalising once. */
  lemma NormalizeDirIdempotent(dir: string)
    ensures NormalizeDir(NormalizeDir(dir)) == NormalizeDir(dir)
  {
  }

  /** An acceptable direction is kept exactly as written, letter case
      included. */
  lemma MixedCaseDirKept()
    ensures NormalizeDir("dEsC") == "dEsC"
  {
    assert Lower("dEsC") == [LowerChar('d'), LowerChar('E'), LowerChar('s'), LowerChar('C')];
  }

  /** `ParseFilter`.  `decoded` is whatever the query-string decoder filled
      in and `decodeFailed` says whether it reported an error.  The error
      result is always nil, and a failed decode skips the normalisation. */
  function ParseFilter(decoded: Filter, decodeFailed: bool): (r: (Filter, Option<Cause>))
    ensures r.1 == None
    ensures decodeFailed ==> r.0 == decoded
    ensures !decodeFailed ==> r.0 == decoded.(dir := NormalizeDir(decoded.dir))
    ensures !decodeFailed ==> IsSortDir(r.0.dir)
  {
    if decodeFailed then (decoded, None)
    else if Lower(decoded.dir) != "asc" && Lower(decoded.dir) != "desc" then (decoded.(dir := "ASC"), None)
    else (decoded, None)
  }

  // ------------------------------------------------------------ HTML escaping

  /** The replacement `html.EscapeString` makes for one character. */
  function EscapeChar(c: char): string {
    if c == '&' then "&amp;"
    else if c == '\'' then "&#39;"
    else if c == '<' then "&lt;"
    else if c == '>' then "&gt;"
    else if c == '"' then "&#34;"
    else [c]
  }

  predicate IsSpecial(c: char) {
    c == '&' || c == '\'' || c == '<' || c == '>' || c == '"'
  }

  /** `html.EscapeString`. */
  function Escape(s: string): (r: string)
    ensures |r| >= |s|
    ensures forall i :: 0 <= i < |r| ==> r[i] != '<' && r[i] != '>' && r[i] != '"' && r[i] != '\''
    ensures (forall i :: 0 <= i < |s| ==> !IsSpecial(s[i])) ==> r == s
  {
    if |s| == 0 then "" else EscapeChar(s[0]) + Escape(s[1..])
  }

  /** Decoding of the five entities `Escape` produces; every other
      character, and any other `&`, is left as it is. */
  function Unescape(s: string): string
    decreases |s|
  {
    if |s| == 0 then ""
    else if s[0] != '&' then [s[0]] + Unescape(s[1..])
    else if |s| >= 5 && s[1] == 'a' && s[2] == 'm' && s[3] == 'p' && s[4] == ';' then "&" + Unescape(s[5..])
    else if |s| >= 5 && s[1] == '#' && s[2] == '3' && s[3] == '9' && s[4] == ';' then "'" + Unescape(s[5..])
    else if |s| >= 4 && s[1] == 'l' && s[2] == 't' && s[3] == ';' then "<" + Unescape(s[4..])
    else if |s| >= 4 && s[1] == 'g' && s[2] == 't' && s[3] == ';' then ">" + Unescape(s[4..])
    else if |s| >= 5 && s[1] == '#' && s[2] == '3' && s[3] == '4' && s[4] == ';' then "\"" + Unescape(s[5..])
    else "&" + Unescape(s[1..])
  }

  lemma UnescapeEscapedChar(c: char, t: string)
    ensures Unescape(EscapeChar(c) + t) == [c] + Unescape(t)
  {
    var e := EscapeChar(c);
    var s := e + t;
    assert s[|e|..] == t;
    if !IsSpecial(c) {
      assert s[0] == c;
    } else {
      assert s[0] == '&' && s[1] == e[1] && s[2] == e[2] && s[3] == e[3];
      if |e| == 5 {
        assert s[4] == ';';
      }
    }
  }

  /** Escaping loses nothing: decoding the five entities gives the
      original text back. */
  lemma {:induction false} EscapeRoundTrip(s: string)
    ensures Unescape(Escape(s)) == s
  {
    if |s| > 0 {
      UnescapeEscapedChar(s[0], Escape(s[1..]));
      EscapeRoundTrip(s[1..]);
      assert [s[0]] + s[1..] == s;
    }
  }

  // ------------------------------------------------------------ request bodies

  /** One field of a decoded request struct; only fields of type `string`
      are touched by the escaping loop. */
  datatype Field = Str(text: string) | Other(repr: string)

  function EscapeField(f: Field): Field {
    match f
    case Str(t) => Str(Escape(t))
    case Other(_) => f
  }

  /** The outcome `govalidator.ValidateStruct` reports for a struct. */
  datatype Verdict = Verdict(valid: bool, err: Option<Cause>)

  /** `ParseBodyRequestData`.  `decoded` holds the fields after the JSON
      decoder ran (its error is ignored, so it is not an input); `validate`
      stands for the struct's validation annotations.  The struct is
      escaped in place, so the escaped fields come back whatever the
      verdict. */
  function ParseBodyRequestData(decoded: seq<Field>, validate: seq<Field> -> Verdict): (r: (seq<Field>, Option<Cause>))
    ensures |r.0| == |decoded|
    ensures forall i :: 0 <= i < |decoded| && decoded[i].Other? ==> r.0[i] == decoded[i]
    ensures forall i :: 0 <= i < |decoded| && decoded[i].Str? ==> r.0[i] == Str(Escape(decoded[i].text))
    ensures r.1.None? <==> validate(r.0).err.None? && validate(r.0).valid
    ensures validate(r.0).err.Some? ==> r.1 == validate(r.0).err
    ensures validate(r.0).err.None? && !validate(r.0).valid ==> r.1 == Some(Plain("Invalid data"))
  {
    var escaped := Map(decoded, EscapeField);
    var verdict := validate(escaped);
    if verdict.err.Some? then (escaped, verdict.err)
    else if !verdict.valid then (escaped, Some(Plain("Invalid data")))
    else (escaped, None)
  }
}
