/**
 * HttpResponseUtils: builds PasswordResponse values, and decodes the `"<status>;<message>"` text
 * that the AI validator answers with.
 */
module HttpResponseUtils {
  import opened Wrappers
  import opened JavaText
  import opened PasswordModel

  const InvalidResponseFormat := "Invalid response format"
  const MissingStatusOrMessage := "Response must contain at least status and message"
  const InvalidStatusFormat := "Invalid status format: "

  /** The prefixes parseStatus recognises. */
  const ValidPrefix := "valid"
  const InvalidPrefix := "invalid"

  /** The separator between status and message. */
  const Separator := ';'

  /** The three-argument createPasswordResponse: status and password are copied, a null message
      becomes the empty string. */
  function CreatePasswordResponse(message: Option<string>, password: Option<string>, status: Status): (r: PasswordResponse)
    ensures r.status == status && r.password == password
    ensures message.Some? ==> r.message == message.value
    ensures message.None? ==> r.message == ""
  {
    PasswordResponse(status, if message.None? then "" else message.value, password)
  }

  /** createErrorResponse. */
  function CreateErrorResponse(errorMessage: string, password: Option<string>): (r: PasswordResponse)
    ensures r.status == Error && r.message == errorMessage && r.password == password
  {
    PasswordResponse(Error, errorMessage, password)
  }

  /** parseStatus: prefix matching on the lower-cased token. It never fails, so it never yields
      None (the `catch` that would return null cannot be reached). */
  function ParseStatus(token: string): (r: Option<Status>)
    ensures r.Some?
    ensures r == Some(Valid) <==> StartsWith(token, ValidPrefix)
    ensures r == Some(Invalid) <==> StartsWith(token, InvalidPrefix)
  {
    assert StartsWith(token, InvalidPrefix) ==> !StartsWith(token, ValidPrefix) by {
      if StartsWith(token, InvalidPrefix) {
        assert token[0] == 'i';
      }
    }
    if StartsWith(token, ValidPrefix) then Some(Valid)
    else if StartsWith(token, InvalidPrefix) then Some(Invalid)
    else Some(Error)
  }

  /** The status token of a reply: its first field, trimmed and lower-cased. */
  function StatusToken(field: string): string {
    ToLowerAscii(Trim(field))
  }

  /** The two-argument createPasswordResponse: decodes `raw` and attaches `password`. */
  function ParseResponse(raw: Option<string>, password: Option<string>): (r: PasswordResponse)
    ensures r.password == password
    ensures raw.None? || Trim(raw.value) == [] ==> r.status == Error && r.message == InvalidResponseFormat
  {
    if raw.None? || Trim(raw.value) == [] then CreateErrorResponse(InvalidResponseFormat, password)
    else
      var parts := Split(raw.value, Separator);
      if |parts| < 2 then CreateErrorResponse(MissingStatusOrMessage, password)
      else
        var statusPart := StatusToken(parts[0]);
        var message := Trim(parts[1]);
        var status := ParseStatus(statusPart);
        if status.None? then CreateErrorResponse(InvalidStatusFormat + statusPart, password)
        else PasswordResponse(status.value, message, password)
  }

  /** A reply in the documented shape: `t;m`, possibly followed by further `;`-separated fields,
      decodes to the status named by `t` (case-insensitively, by prefix) and the trimmed `m`.
      Fields after the second are ignored. */
  lemma DecodeStatusAndMessage(t: string, m: string, tail: string, password: Option<string>)
    requires Separator !in t && Separator !in m && m != []
    requires tail == [] || tail[0] == Separator
    ensures ParseResponse(Some(t + [Separator] + m + tail), password)
         == PasswordResponse(ParseStatus(StatusToken(t)).value, Trim(m), password)
  {
    var raw := t + [Separator] + m + tail;
    assert raw[|t|] == Separator;
    assert !IsBlank(raw);
    TrimSpec(raw);
    SplitFirstTwo(t, Separator, m, tail);
  }

  /** The status words the AI validator is told to answer with. */
  const ValidWord := "VALID"
  const InvalidWord := "INVALID"

  function StatusWord(s: Status): (r: string)
    requires s != Error
    ensures Separator !in r
  {
    if s == Valid then ValidWord else InvalidWord
  }

  /** The reply the AI validator is instructed to give: status word, `;`, reason. */
  function FormatReply(s: Status, reason: string): string
    requires s != Error
  {
    StatusWord(s) + [Separator] + reason
  }

  /** Round trip: a reply in the instructed format decodes to its own status and trimmed reason,
      with the caller's password. The upper-case words match because the token is lower-cased. */
  lemma ParseFormattedReply(s: Status, reason: string, password: Option<string>)
    requires s != Error
    requires reason != [] && Separator !in reason
    ensures ParseResponse(Some(FormatReply(s, reason)), password) == PasswordResponse(s, Trim(reason), password)
  {
    StatusWordToken(s);
    ParseFormattedReplyFields(s, reason, password);
  }

  /** The formatted reply splits into the status word and the reason. */
  lemma ParseFormattedReplyFields(s: Status, reason: string, password: Option<string>)
    requires s != Error
    requires reason != [] && Separator !in reason
    ensures ParseResponse(Some(FormatReply(s, reason)), password)
         == PasswordResponse(ParseStatus(StatusToken(StatusWord(s))).value, Trim(reason), password)
  {
    var word := StatusWord(s);
    DecodeStatusAndMessage(word, reason, [], password);
    assert word + [Separator] + reason + [] == FormatReply(s, reason);
  }

  /** The instructed status words lower-case to exactly the tokens parseStatus looks for. */
  lemma StatusWordToken(s: Status)
    requires s != Error
    ensures StatusToken(StatusWord(s)) == if s == Valid then ValidPrefix else InvalidPrefix
    ensures ParseStatus(StatusToken(StatusWord(s))) == Some(s)
  {
    var word := StatusWord(s);
    TrimUntrimmed(word);
    var lower := ToLowerAscii(word);
    ToLowerAsciiAt(word);
    if s == Valid {
      assert lower == ValidPrefix by {
        assert |lower| == 5;
        assert lower[0] == 'v' && lower[1] == 'a' && lower[2] == 'l' && lower[3] == 'i' && lower[4] == 'd';
      }
    } else {
      assert lower == InvalidPrefix by {
        assert |lower| == 7;
        assert lower[0] == 'i' && lower[1] == 'n' && lower[2] == 'v' && lower[3] == 'a';
        assert lower[4] == 'l' && lower[5] == 'i' && lower[6] == 'd';
      }
    }
  }

  /** A non-blank reply without a separator has too few fields (e.g. "weird"). */
  lemma NoSeparatorIsRejected(raw: string, password: Option<string>)
    requires Separator !in raw && !IsBlank(raw)
    ensures ParseResponse(Some(raw), password) == PasswordResponse(Error, MissingStatusOrMessage, password)
  {
    TrimSpec(raw);
    SplitWithoutDelimiter(raw, Separator);
  }

  /** A reply whose message is empty (e.g. "valid;") loses its last field to the split and is
      rejected, whatever the status token says. */
  lemma EmptyMessageIsRejected(t: string, password: Option<string>)
    requires Separator !in t
    ensures ParseResponse(Some(t + [Separator]), password) == PasswordResponse(Error, MissingStatusOrMessage, password)
  {
    var raw := t + [Separator];
    assert raw[|t|] == Separator;
    assert !IsBlank(raw);
    TrimSpec(raw);
    SplitTrailingDelimiter(t, Separator);
  }

  /** An unrecognised status token (e.g. "banana", or the empty token of ";msg") yields ERROR that
      carries the decoded message, not the "Invalid status format" text. */
  lemma UnknownStatusCarriesMessage(t: string, m: string, password: Option<string>)
    requires Separator !in t && Separator !in m && m != []
    requires !StartsWith(StatusToken(t), ValidPrefix) && !StartsWith(StatusToken(t), InvalidPrefix)
    ensures ParseResponse(Some(t + [Separator] + m), password) == PasswordResponse(Error, Trim(m), password)
  {
    DecodeStatusAndMessage(t, m, [], password);
    assert t + [Separator] + m + [] == t + [Separator] + m;
  }

  /** Every outcome of the decoder: a format error, a missing-field error, or the status of the
      first field's prefix with the trimmed second field. "Invalid status format" never appears. */
  lemma ParseOutcomes(raw: Option<string>, password: Option<string>)
    ensures var r := ParseResponse(raw, password);
      if raw.None? || IsBlank(raw.value) then r == PasswordResponse(Error, InvalidResponseFormat, password)
      else if |Split(raw.value, Separator)| < 2 then r == PasswordResponse(Error, MissingStatusOrMessage, password)
      else
        var parts := Split(raw.value, Separator);
        && r.message == Trim(parts[1])
        && (r.status == Valid <==> StartsWith(StatusToken(parts[0]), ValidPrefix))
        && (r.status == Invalid <==> StartsWith(StatusToken(parts[0]), InvalidPrefix))
  {
    if raw.Some? {
      TrimSpec(raw.value);
    }
  }
}
