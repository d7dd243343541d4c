/** The country and client-address selection of the `/screenshot` endpoint,
    and the download name it attaches to the returned image. */
module App {
  import opened Wrappers
  import Text
  import GeoIp

  /** Used when the request carries no forwarding header and no peer. */
  const LoopbackLiteral := "127.0.0.1"

  /** The client address: the first comma-separated field of
      `X-Forwarded-For` (absent header read as ""), whitespace-stripped;
      when that is empty, the transport peer's host, or the loopback literal
      when there is no peer. */
  function ClientIp(forwardedFor: Option<string>, peer: Option<string>): (ip: string)
    ensures ip != ""  || (peer.Some? && peer.value == "")
  {
    var first := Text.Strip(Text.FirstField(forwardedFor.GetOr(""), ','));
    if first != "" then first else peer.GetOr(LoopbackLiteral)
  }

  /** The country the capture is run for: the supplied one, upper-cased, or
      else the one the resolver gives for the client address. */
  function SelectCountry(country: Option<string>, forwardedFor: Option<string>, peer: Option<string>,
                         reader: Option<GeoIp.Reader>): (code: string)
    ensures country.Some? ==> code == Text.Upper(country.value)
    ensures country.None? ==> code == GeoIp.GetCountryFromIp(reader, ClientIp(forwardedFor, peer))
  {
    match country
    case Some(c) => Text.Upper(c)
    case None => GeoIp.GetCountryFromIp(reader, ClientIp(forwardedFor, peer))
  }

  const DispositionHead := "inline; filename=isitchristmas-"
  const DispositionTail := ".png"

  /** Starlette encodes header values as latin-1: it accepts only characters
      up to U+00FF. */
  predicate IsLatin1(s: string)
  {
    forall i :: 0 <= i < |s| ==> s[i] as int < 0x100
  }

  /** Text is latin-1 exactly when each of its parts is. */
  lemma Latin1Concat(a: string, b: string)
    ensures IsLatin1(a + b) <==> IsLatin1(a) && IsLatin1(b)
  {
    if IsLatin1(a) && IsLatin1(b) {
      forall i | 0 <= i < |a + b| ensures (a + b)[i] as int < 0x100 {
        if i >= |a| {
          assert (a + b)[i] == b[i - |a|];
        }
      }
    }
    if IsLatin1(a + b) {
      forall i | 0 <= i < |a| ensures a[i] as int < 0x100 {
        assert (a + b)[i] == a[i];
      }
      forall i | 0 <= i < |b| ensures b[i] as int < 0x100 {
        assert (a + b)[|a| + i] == b[i];
      }
    }
  }

  /** The `Content-Disposition` value naming the download after a country:
      the country sits between the fixed head and tail, and the value can be
      sent exactly when the country can. */
  function ContentDisposition(country: string): (h: string)
    ensures |h| == |DispositionHead| + |country| + |DispositionTail|
    ensures h[..|DispositionHead|] == DispositionHead
    ensures h[|h| - |DispositionTail|..] == DispositionTail
    ensures h[|DispositionHead|..|h| - |DispositionTail|] == country
    ensures IsLatin1(h) <==> IsLatin1(country)
  {
    var h := DispositionHead + country + DispositionTail;
    assert h[..|DispositionHead|] == DispositionHead;
    assert h[|h| - |DispositionTail|..] == DispositionTail;
    assert h[|DispositionHead|..|h| - |DispositionTail|] == country;
    Latin1Concat(DispositionHead + country, DispositionTail);
    Latin1Concat(DispositionHead, country);
    assert IsLatin1(DispositionHead) && IsLatin1(DispositionTail);
    h
  }

  /** Reads the country back out of a `Content-Disposition` value. */
  function DispositionCountry(header: string): (country: Option<string>)
  {
    if |header| >= |DispositionHead| + |DispositionTail|
       && header[..|DispositionHead|] == DispositionHead
       && header[|header| - |DispositionTail|..] == DispositionTail
    then Some(header[|DispositionHead|..|header| - |DispositionTail|])
    else None
  }

  /** The download name determines the country it was made for, and every
      well-formed download name is the one made for its country. */
  lemma DispositionRoundTrip(country: string, header: string)
    ensures DispositionCountry(ContentDisposition(country)) == Some(country)
    ensures DispositionCountry(header) == Some(country) ==> header == ContentDisposition(country)
  {
    if DispositionCountry(header) == Some(country) {
      assert header == header[..|DispositionHead|]
        + header[|DispositionHead|..|header| - |DispositionTail|]
        + header[|header| - |DispositionTail|..];
    }
  }

  /** What the endpoint answers, short of the image bytes themselves. */
  datatype ScreenshotResponse = ScreenshotResponse(
    captureCountry: string,      // the code the capture session injects
    mediaType: string,
    contentDisposition: string)

  /** How a request ends: the image is served, or the capture has run but
      building the response fails because the download name cannot be
      encoded as a header (a `UnicodeEncodeError`, answered with a server
      error). */
  datatype Outcome = Served(response: ScreenshotResponse) | HeaderEncodingFailed(captureCountry: string)

  /** `get_screenshot`: select the country, capture for it, and name the
      download after that same country. The response is served exactly when
      the country is latin-1 text. */
  function GetScreenshot(country: Option<string>, forwardedFor: Option<string>, peer: Option<string>,
                         reader: Option<GeoIp.Reader>): (r: Outcome)
    ensures r.Served? <==> IsLatin1(SelectCountry(country, forwardedFor, peer, reader))
    ensures r.Served? ==> r.response.captureCountry == SelectCountry(country, forwardedFor, peer, reader)
    ensures r.Served? ==> r.response.mediaType == "image/png"
    ensures r.Served? ==> DispositionCountry(r.response.contentDisposition) == Some(r.response.captureCountry)
    ensures r.HeaderEncodingFailed? ==> r.captureCountry == SelectCountry(country, forwardedFor, peer, reader)
  {
    var code := SelectCountry(country, forwardedFor, peer, reader);
    var header := ContentDisposition(code);
    DispositionRoundTrip(code, "");
    if IsLatin1(header) then Served(ScreenshotResponse(code, "image/png", header))
    else HeaderEncodingFailed(code)
  }

  /** A supplied country is upper-cased and used as is; the forwarding
      header, the peer and the dataset play no part. */
  lemma SuppliedCountryWins(c: string, f1: Option<string>, p1: Option<string>, r1: Option<GeoIp.Reader>,
                            f2: Option<string>, p2: Option<string>, r2: Option<GeoIp.Reader>)
    ensures SelectCountry(Some(c), f1, p1, r1) == Text.Upper(c)
    ensures SelectCountry(Some(c), f1, p1, r1) == SelectCountry(Some(c), f2, p2, r2)
  {
  }

  /** The first field of the forwarding header, stripped, is the client
      address whenever it is not blank. */
  lemma ForwardedForFirstField(first: string, rest: string, peer: Option<string>)
    requires ',' !in first
    requires Text.Strip(first) != ""
    ensures ClientIp(Some(first + "," + rest), peer) == Text.Strip(first)
    ensures ClientIp(Some(first), peer) == Text.Strip(first)
  {
    Text.FirstFieldIgnoresLaterFields(first, ',', rest);
  }

  /** Fields after the first comma never influence the client address. */
  lemma LaterFieldsIgnored(first: string, rest1: string, rest2: string, peer: Option<string>)
    requires ',' !in first
    ensures ClientIp(Some(first + "," + rest1), peer) == ClientIp(Some(first + "," + rest2), peer)
  {
    Text.FirstFieldIgnoresLaterFields(first, ',', rest1);
    Text.FirstFieldIgnoresLaterFields(first, ',', rest2);
  }

  /** A blank first field (or no header) falls back to the peer, then to loopback. */
  lemma BlankFirstFieldFallsBack(forwardedFor: Option<string>, peer: Option<string>)
    requires Text.Strip(Text.FirstField(forwardedFor.GetOr(""), ',')) == ""
    ensures peer.Some? ==> ClientIp(forwardedFor, peer) == peer.value
    ensures peer.None? ==> ClientIp(forwardedFor, peer) == LoopbackLiteral
  {
  }

  /** Without a supplied country the answer is the fallback or a code the
      dataset holds for the client address. */
  lemma ResolvedCountryIsFallbackOrRecorded(forwardedFor: Option<string>, peer: Option<string>,
                                            reader: Option<GeoIp.Reader>)
    ensures var code := SelectCountry(None, forwardedFor, peer, reader);
      code == GeoIp.Fallback
      || (reader.Some? && GeoIp.Country(reader.value, ClientIp(forwardedFor, peer)) == GeoIp.Found(code))
  {
  }

  /** A request with no country, no forwarding header and no peer is served "GB". */
  lemma PeerlessRequestIsGB(reader: Option<GeoIp.Reader>)
    ensures SelectCountry(None, None, None, reader) == "GB"
  {
    assert Text.FirstField("", ',') == "";
    GeoIp.LocalInputsAreGB(reader);
  }

  /** A loopback client with no country and no forwarding header gets the same
      answer as one asking for `gb`. */
  lemma LoopbackClientLikeGb(reader: Option<GeoIp.Reader>)
    ensures GetScreenshot(None, None, Some(LoopbackLiteral), reader) == GetScreenshot(Some("gb"), None, None, reader)
  {
    assert Text.FirstField("", ',') == "";
    assert ClientIp(None, Some(LoopbackLiteral)) == "127.0.0.1";
    GeoIp.LocalInputsAreGB(reader);
    assert SelectCountry(None, None, Some(LoopbackLiteral), reader) == "GB";
    assert Text.Upper("gb") == "GB";
    assert SelectCountry(Some("gb"), None, None, reader) == "GB";
  }

  /** Asking for `fr` captures for "FR" and names the download `isitchristmas-FR.png`. */
  lemma SuppliedLowerCaseExample(forwardedFor: Option<string>, peer: Option<string>, reader: Option<GeoIp.Reader>)
    ensures GetScreenshot(Some("fr"), forwardedFor, peer, reader).Served?
    ensures GetScreenshot(Some("fr"), forwardedFor, peer, reader).response.captureCountry == "FR"
    ensures GetScreenshot(Some("fr"), forwardedFor, peer, reader).response.contentDisposition
      == "inline; filename=isitchristmas-FR.png"
  {
    assert Text.Upper("fr") == "FR";
    assert SelectCountry(Some("fr"), forwardedFor, peer, reader) == "FR";
    assert IsLatin1("FR");
    assert ContentDisposition("FR") == "inline; filename=isitchristmas-FR.png";
  }

  /** A supplied country that stays outside latin-1 once upper-cased is
      captured for, but the response cannot be built: `?country=€` fails
      after the capture. */
  lemma NonLatin1CountryFails(forwardedFor: Option<string>, peer: Option<string>, reader: Option<GeoIp.Reader>)
    ensures GetScreenshot(Some("€"), forwardedFor, peer, reader) == HeaderEncodingFailed("€")
  {
    assert Text.Upper("€") == "€";
    assert "€"[0] as int == 0x20AC;
  }
}
