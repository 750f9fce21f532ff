/**
 * The GET handler of `/v0/redmine/actionables`. The `url` and `apikey`
 * query arguments are read as Tornado reads them: control characters
 * become spaces and surrounding whitespace is stripped. They are checked
 * before anything is asked of the tracker, and a request that passes gets
 * the filtered list of issues. The tracker's answers (the current user's
 * id and the open issues) and today's date come in as parameters.
 */
module Handler {
  import opened Wrappers
  import opened Redmine
  import opened Filter

  /** An HTTP error status with its reason phrase. */
  datatype HttpError = HttpError(status: int, reason: string)

  /** The JSON object the handler writes: the tracker URL, the user id and the issue entries. */
  datatype Response = Response(redmine: string, userId: int, issues: seq<Entry>)

  /** The ASCII characters Python's `str.isspace` accepts. */
  predicate IsSpace(c: char) {
    c == ' ' || c == '\t' || c == '\n' || c == '\r' || (11 as char <= c <= 12 as char) || (28 as char <= c <= 31 as char)
  }

  /** Every character of `s` from position `k` on is whitespace. */
  predicate SpaceFrom(s: string, k: nat) {
    forall i | k <= i < |s| :: IsSpace(s[i])
  }

  /** The number of whitespace characters `s` starts with. */
  function LeadingSpace(s: string): (n: nat)
    ensures n <= |s|
    ensures forall i | 0 <= i < n :: IsSpace(s[i])
    ensures n == |s| || !IsSpace(s[n])
    decreases |s|
  {
    if |s| > 0 && IsSpace(s[0]) then 1 + LeadingSpace(s[1..]) else 0
  }

  /** `s` without its trailing whitespace. */
  function StripEnd(s: string): (t: string)
    ensures |t| <= |s| && t == s[..|t|]
    ensures |t| == 0 || !IsSpace(t[|t| - 1])
    ensures forall i | |t| <= i < |s| :: IsSpace(s[i])
    decreases |s|
  {
    if |s| > 0 && IsSpace(s[|s| - 1]) then StripEnd(s[..|s| - 1]) else s
  }

  /**
   * Python's `s.strip()`: the part of `s` after its leading whitespace and
   * before its trailing whitespace.
   */
  function Strip(s: string): (t: string)
    ensures LeadingSpace(s) + |t| <= |s|
    ensures forall j | 0 <= j < |t| :: t[j] == s[LeadingSpace(s) + j]
    ensures SpaceFrom(s, LeadingSpace(s) + |t|)
    ensures |t| == 0 || (!IsSpace(t[0]) && !IsSpace(t[|t| - 1]))
    ensures |t| == 0 <==> SpaceFrom(s, 0)
  {
    StripEnd(s[LeadingSpace(s)..])
  }

  /**
   * The contract of `Strip` leaves no choice: a string that is the slice of
   * `s` after its leading whitespace, followed in `s` only by whitespace,
   * and that is empty or ends with a character that is not whitespace, is
   * `Strip(s)`.
   */
  lemma StripDetermined(s: string, t: string)
    requires LeadingSpace(s) + |t| <= |s|
    requires forall j | 0 <= j < |t| :: t[j] == s[LeadingSpace(s) + j]
    requires SpaceFrom(s, LeadingSpace(s) + |t|)
    requires |t| == 0 || !IsSpace(t[|t| - 1])
    ensures t == Strip(s)
  {
  }

  /** A string that does not start with whitespace has no leading whitespace to strip. */
  lemma NoLeadingSpace(s: string)
    requires |s| == 0 || !IsSpace(s[0])
    ensures LeadingSpace(s) == 0
  {
  }

  /** A string that does not end with whitespace has nothing to strip at its end. */
  lemma StripEndTrimmed(s: string)
    requires |s| == 0 || !IsSpace(s[|s| - 1])
    ensures StripEnd(s) == s
  {
  }

  /** Stripping a string that has no surrounding whitespace leaves it as it is. */
  lemma StripTrimmed(s: string)
    requires |s| == 0 || (!IsSpace(s[0]) && !IsSpace(s[|s| - 1]))
    ensures Strip(s) == s
  {
    NoLeadingSpace(s);
    assert s[0..] == s;
    StripEndTrimmed(s);
  }

  /** Stripping twice strips no more than stripping once. */
  lemma StripIdempotent(s: string)
    ensures Strip(Strip(s)) == Strip(s)
  {
    StripTrimmed(Strip(s));
  }

  /** The control characters Tornado replaces with a space in every query argument. */
  predicate IsControl(c: char) {
    c <= 8 as char || (14 as char <= c <= 31 as char)
  }

  /** `s` with every control character replaced by a space. */
  function Scrub(s: string): (t: string)
    ensures |t| == |s|
    ensures forall i | 0 <= i < |s| :: t[i] == if IsControl(s[i]) then ' ' else s[i]
  {
    seq(|s|, i requires 0 <= i < |s| => if IsControl(s[i]) then ' ' else s[i])
  }

  /** A value that holds nothing but whitespace and control characters. */
  predicate Blanked(s: string) {
    forall i | 0 <= i < |s| :: IsSpace(s[i]) || IsControl(s[i])
  }

  /**
   * `get_argument(name, None)` on the decoded values a query gives for one
   * name, in the order they appear: with no value the argument is missing;
   * otherwise the last value counts, with its control characters replaced
   * by spaces and then stripped.
   */
  function Argument(values: seq<string>): (arg: Option<string>)
    ensures arg.None? <==> |values| == 0
    ensures |values| > 0 ==> arg.value == Strip(Scrub(values[|values| - 1]))
    ensures |values| > 0 ==> (arg.value == "" <==> Blanked(values[|values| - 1]))
  {
    if |values| == 0 then None else Some(Strip(Scrub(values[|values| - 1])))
  }

  /** A query argument that is missing or empty once stripped. */
  predicate Blank(arg: Option<string>) {
    arg.None? || arg.value == ""
  }

  /**
   * A query argument that has no value, or whose last value consists of
   * whitespace and control characters only.
   */
  predicate AllSpace(values: seq<string>) {
    |values| == 0 || Blanked(values[|values| - 1])
  }

  /**
   * The handler on the decoded query values of `url` and `apikey` (the last
   * one counts when a name is repeated), with the tracker's answers and
   * today's date as parameters.
   */
  function Get(url: seq<string>, apikey: seq<string>, userId: int, fetched: seq<Issue>, today: Date)
    : (r: Result<Response, HttpError>)
    ensures r.Failure? <==> AllSpace(url) || AllSpace(apikey)
    ensures r.Failure? ==> r.error.status == 400
    ensures AllSpace(url) ==> r.error.reason == "Redmine URL must not be empty"
    ensures !AllSpace(url) && AllSpace(apikey) ==> r.error.reason == "API key URL must not be empty"
    ensures r.Success? ==>
              && r.value.redmine == Strip(Scrub(url[|url| - 1]))
              && r.value.userId == userId
              && r.value.issues == Actionables(Strip(Scrub(url[|url| - 1])), userId, fetched, today)
  {
    var redmineUrl := Argument(url);
    if Blank(redmineUrl) then
      Failure(HttpError(400, "Redmine URL must not be empty"))
    else
      var key := Argument(apikey);
      if Blank(key) then
        Failure(HttpError(400, "API key URL must not be empty"))
      else
        Success(Response(redmineUrl.value, userId, Actionables(redmineUrl.value, userId, fetched, today)))
  }

  /** Only the last value of a repeated argument matters: earlier values never change the response. */
  lemma LastValueCounts(url: seq<string>, apikey: seq<string>, url': seq<string>, apikey': seq<string>,
                        userId: int, fetched: seq<Issue>, today: Date)
    requires |url| > 0 && |url'| > 0 && url[|url| - 1] == url'[|url'| - 1]
    requires |apikey| > 0 && |apikey'| > 0 && apikey[|apikey| - 1] == apikey'[|apikey'| - 1]
    ensures Get(url, apikey, userId, fetched, today) == Get(url', apikey', userId, fetched, today)
  {
  }

  /** A rejected request does not depend on anything the tracker would have answered. */
  lemma RejectedBeforeTracker(url: seq<string>, apikey: seq<string>,
                              userId: int, fetched: seq<Issue>, today: Date,
                              userId': int, fetched': seq<Issue>, today': Date)
    requires AllSpace(url) || AllSpace(apikey)
    ensures Get(url, apikey, userId, fetched, today) == Get(url, apikey, userId', fetched', today')
  {
  }
}
