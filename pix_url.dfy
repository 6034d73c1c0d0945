/**
 * `getPixUrl`: locate the payload URL of a Pix "copia e cola" string. The
 * Merchant Account Information templates occupy IDs "26" to "51" (section 4.5
 * of the EMV QR Code Specification for Payment Systems, Merchant-Presented
 * Mode); inside a template the Pix BR Code places the payload URL at sub-ID
 * "25". The first template, in ascending ID order, with a non-empty "25"
 * wins.
 */
module PixUrl {
  import opened Wrappers
  import opened JsString
  import opened Tlv

  const FirstTemplateId: nat := 26
  const LastTemplateId: nat := 51
  const UrlSubId: string := "25"

  /** JavaScript truthiness of `m[k]` for a string-valued object: present and non-empty. */
  predicate Truthy(m: map<string, string>, k: string)
  {
    k in m && m[k] != ""
  }

  predicate InRange(t: int)
  {
    FirstTemplateId <= t <= LastTemplateId
  }

  /**
   * Every non-empty template in 26 .. 51 decodes with a cursor that moves
   * forward, including templates after the first match, which the source
   * never decodes.
   */
  predicate TemplatesDecodable(root: map<string, string>)
  {
    forall t: nat :: FirstTemplateId <= t <= LastTemplateId && Truthy(root, PadStart2(t)) ==>
      Decodable(root[PadStart2(t)])
  }

  /** Template t of root is present and non-empty, and its decoding has a non-empty "25". */
  predicate Yields(root: map<string, string>, t: nat)
    requires InRange(t) && TemplatesDecodable(root)
  {
    Truthy(root, PadStart2(t)) && Truthy(TlvMap(root[PadStart2(t)]), UrlSubId)
  }

  /** The "25" value of template t, when it yields one. */
  function NestedUrl(root: map<string, string>, t: nat): string
    requires InRange(t) && TemplatesDecodable(root) && Yields(root, t)
  {
    TlvMap(root[PadStart2(t)])[UrlSubId]
  }

  /** The yield test of the scan, as a predicate on template IDs. */
  function YieldsIn(root: map<string, string>): nat -> bool
    requires TemplatesDecodable(root)
  {
    t => InRange(t) && Yields(root, t)
  }

  /**
   * An upward scan over the template IDs t .. 51 that stops at the first ID
   * where found holds; 52 (one past the range) when there is none.
   */
  function FirstFrom(found: nat -> bool, t: nat): (k: nat)
    requires FirstTemplateId <= t <= LastTemplateId + 1
    ensures t <= k <= LastTemplateId + 1
    ensures k <= LastTemplateId ==> found(k)
    ensures forall k' :: t <= k' < k ==> !found(k')
    decreases LastTemplateId + 1 - t
  {
    if t > LastTemplateId || found(t) then t else FirstFrom(found, t + 1)
  }

  /**
   * The root payload and every non-empty template in 26 .. 51 are decodable:
   * this covers every TLV decode the scan performs, and more.
   */
  predicate PayloadDecodable(payload: Option<string>)
  {
    payload.Some? && payload.value != "" ==>
      Decodable(payload.value) && TemplatesDecodable(TlvMap(payload.value))
  }

  /** What getPixUrl returns: null (None) for a falsy payload, else the scan's result. */
  function PixUrlOf(payload: Option<string>): Option<string>
    requires PayloadDecodable(payload)
  {
    if payload.None? || payload.value == "" then None
    else
      var root := TlvMap(payload.value);
      var k := FirstFrom(YieldsIn(root), FirstTemplateId);
      if k <= LastTemplateId then Some(NestedUrl(root, k)) else None
  }

  /** The source's loop: template IDs 26 to 51, returning at the first non-empty nested "25". */
  method GetPixUrl(payload: Option<string>) returns (url: Option<string>)
    requires PayloadDecodable(payload)
    ensures url == PixUrlOf(payload)
    ensures payload.None? || payload == Some("") ==> url == None
  {
    if payload.None? || payload.value == "" {
      return None;
    }
    var root := DecodeTlv(payload.value);
    var t := FirstTemplateId;
    while t <= LastTemplateId
      invariant FirstTemplateId <= t <= LastTemplateId + 1
      invariant FirstFrom(YieldsIn(root), t) == FirstFrom(YieldsIn(root), FirstTemplateId)
    {
      var tag := PadStart2(t);
      if tag in root && root[tag] != "" {
        var nested := DecodeTlv(root[tag]);
        if UrlSubId in nested && nested[UrlSubId] != "" {
          return Some(nested[UrlSubId]);
        }
      }
      t := t + 1;
    }
    return None;
  }

  // ---------------------------------------------------------------------
  // The scan is a first-match search
  // ---------------------------------------------------------------------

  /**
   * A URL that getPixUrl returns is non-empty and is the nested "25" of some
   * template t in 26..51 whose root value is non-empty; every lower template
   * is absent, empty, or has no non-empty "25".
   */
  lemma PixUrlIsFirstMatch(payload: Option<string>, u: string)
    requires PayloadDecodable(payload) && PixUrlOf(payload) == Some(u)
    ensures u != ""
    ensures payload.Some? && payload.value != ""
    ensures var root := TlvMap(payload.value);
      exists t :: InRange(t)
        && Truthy(root, PadStart2(t))
        && UrlSubId in TlvMap(root[PadStart2(t)]) && TlvMap(root[PadStart2(t)])[UrlSubId] == u
        && forall t' :: FirstTemplateId <= t' < t ==> !Yields(root, t')
  {
    var root := TlvMap(payload.value);
    var t := FirstFrom(YieldsIn(root), FirstTemplateId);
    assert YieldsIn(root)(t);
    forall t' | FirstTemplateId <= t' < t
      ensures !Yields(root, t')
    {
      assert !YieldsIn(root)(t');
    }
  }

  /**
   * getPixUrl returns null exactly when the payload is falsy or no template in
   * 26..51 yields a non-empty nested "25"; an empty "25" is skipped.
   */
  lemma PixUrlNullIff(payload: Option<string>)
    requires PayloadDecodable(payload)
    ensures PixUrlOf(payload) == None <==>
      payload.None? || payload.value == ""
      || forall t :: InRange(t) ==> !Yields(TlvMap(payload.value), t)
  {
    if payload.Some? && payload.value != "" {
      var root := TlvMap(payload.value);
      var k := FirstFrom(YieldsIn(root), FirstTemplateId);
      if k <= LastTemplateId {
        assert YieldsIn(root)(k);
      } else {
        forall t | InRange(t)
          ensures !Yields(root, t)
        {
          assert !YieldsIn(root)(t);
        }
      }
    }
  }

  // ---------------------------------------------------------------------
  // Payloads built by the encoder
  // ---------------------------------------------------------------------

  /** A root whose only template is "26", carrying url at "25": the scan returns url. */
  lemma FirstTemplateWins(payload: string, inner: string, url: string)
    requires payload != "" && Decodable(payload) && TlvMap(payload) == map["26" := inner]
    requires inner != "" && Decodable(inner) && TlvMap(inner) == map[UrlSubId := url] && url != ""
    ensures PayloadDecodable(Some(payload)) && PixUrlOf(Some(payload)) == Some(url)
  {
    var root := TlvMap(payload);
    assert PadStart2(26) == "26";
    forall t: nat | FirstTemplateId <= t <= LastTemplateId && Truthy(root, PadStart2(t))
      ensures Decodable(root[PadStart2(t)])
    {
      PadStart2Injective(t, 26);
    }
    assert YieldsIn(root)(26);
  }

  /** The template "26" + length + ("25" + length + url) yields url. */
  lemma TemplateUrlFound(url: string)
    requires 0 < |url| < 96
    ensures var inner := "25" + PadStart2(|url|) + url;
      var payload := "26" + PadStart2(|inner|) + inner;
      PayloadDecodable(Some(payload)) && PixUrlOf(Some(payload)) == Some(url)
  {
    var inner := "25" + PadStart2(|url|) + url;
    var payload := "26" + PadStart2(|inner|) + inner;
    SingleRecord("25", url);
    SingleRecord("26", inner);
    FirstTemplateWins(payload, inner, url);
  }

  /**
   * A root whose template "26" has no non-empty "25" and whose template "27"
   * carries url at "25": the scan passes "26" and returns url.
   */
  lemma SecondTemplateWins(payload: string, first: string, inner: string, url: string)
    requires payload != "" && Decodable(payload)
    requires TlvMap(payload) == map["26" := first, "27" := inner]
    requires Decodable(first) && !Truthy(TlvMap(first), UrlSubId)
    requires inner != "" && Decodable(inner) && TlvMap(inner) == map[UrlSubId := url] && url != ""
    ensures PayloadDecodable(Some(payload)) && PixUrlOf(Some(payload)) == Some(url)
  {
    var root := TlvMap(payload);
    assert PadStart2(26) == "26" && PadStart2(27) == "27";
    forall t: nat | FirstTemplateId <= t <= LastTemplateId && Truthy(root, PadStart2(t))
      ensures Decodable(root[PadStart2(t)])
    {
      if PadStart2(t) == "26" {
        PadStart2Injective(t, 26);
      } else {
        PadStart2Injective(t, 27);
      }
    }
    assert !YieldsIn(root)(26);
    assert YieldsIn(root)(27);
    assert FirstFrom(YieldsIn(root), 26) == FirstFrom(YieldsIn(root), 27);
  }

  /**
   * A template "26" whose only record is not a non-empty "25" is skipped, and
   * the "25" of template "27" is returned.
   */
  lemma SkippedTemplate(other: Field, url: string)
    requires |other.tag| == 2 && |other.value| < 96
    requires other.tag != UrlSubId || other.value == ""
    requires 0 < |url| < 96
    ensures var first := other.tag + PadStart2(|other.value|) + other.value;
      var inner := "25" + PadStart2(|url|) + url;
      var payload := "26" + PadStart2(|first|) + first + "27" + PadStart2(|inner|) + inner;
      PayloadDecodable(Some(payload)) && PixUrlOf(Some(payload)) == Some(url)
  {
    var first := other.tag + PadStart2(|other.value|) + other.value;
    var inner := "25" + PadStart2(|url|) + url;
    var payload := "26" + PadStart2(|first|) + first + "27" + PadStart2(|inner|) + inner;
    SingleRecord(other.tag, other.value);
    SingleRecord("25", url);
    TwoRecords(Field("26", first), Field("27", inner));
    assert TlvMap(payload) == map["26" := first, "27" := inner];
    SecondTemplateWins(payload, first, inner, url);
  }
}
