/**
 * The rewrite of `AndroidManifest.xml`: the application is pointed at the
 * replacement network security configuration, optionally made debuggable,
 * and its Google Maps API key entries optionally replaced; the caller
 * learns whether the manifest declares the app to be split (an app bundle).
 */
module ModifyManifest {
  import opened Base
  import opened XmlElement

  const ManifestTag := "manifest"
  const ApplicationTag := "application"
  const MetaDataTag := "meta-data"
  const NetworkSecurityConfigKey := "android:networkSecurityConfig"
  const NetworkSecurityConfigValue := "@xml/nsc_mitm"
  const DebuggableKey := "android:debuggable"
  const NameKey := "android:name"
  const ValueKey := "android:value"
  const SplitsName := "com.android.vending.splits"
  const MapsApiNames := ["com.google.android.maps.v2.API_KEY", "com.google.android.geo.API_KEY"]

  /** The document has no `manifest` element, or the manifest no `application`. */
  datatype ManifestError = NoManifest | NoApplication

  /** The indices of the first `manifest` element and of its first `application` child. */
  function Locate(document: Element): (r: Result<(nat, nat), ManifestError>)
    ensures r.Ok? ==> document.elements.Some? && r.value.0 < |document.elements.value|
    ensures r.Ok? ==> var manifest := document.elements.value[r.value.0];
      manifest.elements.Some? && r.value.1 < |manifest.elements.value|
  {
    match FindChild(document, ManifestTag)
    case None => Err(NoManifest)
    case Some(mi) =>
      match FindChild(document.elements.value[mi], ApplicationTag)
      case None => Err(NoApplication)
      case Some(ai) => Ok((mi, ai))
  }

  /** The application's attributes after the rewrite (object spread, then the new keys). */
  function PatchedAttributes(attrs: Option<Attributes>, debuggable: bool): Attributes
  {
    var original := if attrs.Some? then attrs.value else [];
    var configured := Put(original, NetworkSecurityConfigKey, NetworkSecurityConfigValue);
    if debuggable then Put(configured, DebuggableKey, "true") else configured
  }

  /** `el.attributes?.[key] + ''`: the attribute's text, "undefined" when it is missing. */
  function AttributeText(attrs: Option<Attributes>, key: string): string
  {
    if attrs.None? then "undefined"
    else match Get(attrs.value, key)
      case None => "undefined"
      case Some(v) => v
  }

  /** A `meta-data` child declaring the app split into an app bundle. */
  predicate IsSplitsEntry(el: Element) {
    Named(el, MetaDataTag) && el.attributes.Some? && Get(el.attributes.value, NameKey) == Some(SplitsName)
  }

  /** Some direct child of the application declares the split; false without children. */
  predicate UsesAppBundle(application: Element) {
    application.elements.Some? &&
    exists i | 0 <= i < |application.elements.value| :: IsSplitsEntry(application.elements.value[i])
  }

  /** A `meta-data` child naming one of the two Maps API key entries. */
  predicate IsMapsKeyEntry(el: Element) {
    Named(el, MetaDataTag) && AttributeText(el.attributes, NameKey) in MapsApiNames
  }

  /** The child after the key replacement. */
  function WithMapsKey(el: Element, mapsApiKey: string): Element
  {
    if IsMapsKeyEntry(el) then el.(attributes := Some(Put(el.attributes.value, ValueKey, mapsApiKey))) else el
  }

  /** Every child after the key replacement. */
  function MapsKeyApplied(elements: seq<Element>, mapsApiKey: string): seq<Element>
  {
    seq(|elements|, i requires 0 <= i < |elements| => WithMapsKey(elements[i], mapsApiKey))
  }

  /** The application element after the rewrite. */
  function PatchedApplication(application: Element, debuggable: bool, mapsApiKey: string): Element
  {
    application.(
      attributes := Some(PatchedAttributes(application.attributes, debuggable)),
      elements :=
        if mapsApiKey != "" && application.elements.Some?
        then Some(MapsKeyApplied(application.elements.value, mapsApiKey))
        else application.elements)
  }

  /** The rewritten document and whether the app uses an app bundle. */
  function ModifiedManifest(document: Element, debuggable: bool, mapsApiKey: string): Result<(Element, bool), ManifestError>
  {
    match Locate(document)
    case Err(e) => Err(e)
    case Ok((mi, ai)) =>
      var manifest := document.elements.value[mi];
      var application := manifest.elements.value[ai];
      var patched := PatchedApplication(application, debuggable, mapsApiKey);
      Ok((WithChild(document, mi, WithChild(manifest, ai, patched)), UsesAppBundle(application)))
  }

  /** The forEach over the application's children that fills in the Maps API key. */
  method SetMapsApiKey(elements: seq<Element>, mapsApiKey: string) returns (updated: seq<Element>)
    ensures updated == MapsKeyApplied(elements, mapsApiKey)
    ensures |updated| == |elements|
    ensures forall i | 0 <= i < |elements| ::
      updated[i] == if IsMapsKeyEntry(elements[i])
                    then elements[i].(attributes := Some(Put(elements[i].attributes.value, ValueKey, mapsApiKey)))
                    else elements[i]
  {
    updated := elements;
    for i := 0 to |elements|
      invariant |updated| == |elements|
      invariant forall j | 0 <= j < i :: updated[j] == WithMapsKey(elements[j], mapsApiKey)
      invariant forall j | i <= j < |elements| :: updated[j] == elements[j]
    {
      var el := updated[i];
      if el.name == Some(MetaDataTag) {
        var name := AttributeText(el.attributes, NameKey);
        if name in MapsApiNames {
          updated := updated[i := el.(attributes := Some(Put(el.attributes.value, ValueKey, mapsApiKey)))];
        }
      }
    }
  }

  /**
   * `modifyManifest` on the parsed manifest: the document to write back and whether
   * the app uses an app bundle, or the element it could not find.
   */
  method Modify(document: Element, debuggable: bool, mapsApiKey: string) returns (r: Result<(Element, bool), ManifestError>)
    ensures r == ModifiedManifest(document, debuggable, mapsApiKey)
  {
    var located := Locate(document);
    if located.Err? {
      return Err(located.error);
    }
    var (mi, ai) := located.value;
    var manifest := document.elements.value[mi];
    var application := manifest.elements.value[ai];
    application := application.(attributes := Some(PatchedAttributes(application.attributes, debuggable)));
    var usesAppBundle := UsesAppBundle(application);
    if mapsApiKey != "" && application.elements.Some? {
      var children := SetMapsApiKey(application.elements.value, mapsApiKey);
      application := application.(elements := Some(children));
    }
    r := Ok((WithChild(document, mi, WithChild(manifest, ai, application)), usesAppBundle));
  }

  /**
   * The rewritten attributes point at the replacement configuration, carry
   * `android:debuggable="true"` when asked, and read as before elsewhere; an
   * existing `android:debuggable` is kept when the flag is not set.
   */
  lemma PatchedAttributesSpec(attrs: Option<Attributes>, debuggable: bool)
    ensures Get(PatchedAttributes(attrs, debuggable), NetworkSecurityConfigKey) == Some(NetworkSecurityConfigValue)
    ensures debuggable ==> Get(PatchedAttributes(attrs, debuggable), DebuggableKey) == Some("true")
    ensures forall k | k != NetworkSecurityConfigKey && (k != DebuggableKey || !debuggable) ::
      Get(PatchedAttributes(attrs, debuggable), k) == Get(if attrs.Some? then attrs.value else [], k)
  {
    var original := if attrs.Some? then attrs.value else [];
    var configured := Put(original, NetworkSecurityConfigKey, NetworkSecurityConfigValue);
    PutGet(original, NetworkSecurityConfigKey, NetworkSecurityConfigValue);
    forall k | k != NetworkSecurityConfigKey
      ensures Get(configured, k) == Get(original, k)
    {
      PutGetOther(original, NetworkSecurityConfigKey, NetworkSecurityConfigValue, k);
    }
    if debuggable {
      PutGet(configured, DebuggableKey, "true");
      PutGetOther(configured, DebuggableKey, "true", NetworkSecurityConfigKey);
      forall k | k != DebuggableKey
        ensures Get(Put(configured, DebuggableKey, "true"), k) == Get(configured, k)
      {
        PutGetOther(configured, DebuggableKey, "true", k);
      }
    }
  }

  /** The rewrite reports an error exactly when the manifest or its application is missing. */
  lemma ModifiedManifestErrors(document: Element, debuggable: bool, mapsApiKey: string)
    ensures ModifiedManifest(document, debuggable, mapsApiKey) == Err(NoManifest) <==> FindChild(document, ManifestTag).None?
    ensures ModifiedManifest(document, debuggable, mapsApiKey) == Err(NoApplication) <==>
      (FindChild(document, ManifestTag).Some? &&
       FindChild(document.elements.value[FindChild(document, ManifestTag).value], ApplicationTag).None?)
  {
  }

  /** Renaming nothing: the key replacement keeps every child's name and `android:name`. */
  lemma WithMapsKeyKeepsName(el: Element, mapsApiKey: string)
    ensures WithMapsKey(el, mapsApiKey).name == el.name
    ensures WithMapsKey(el, mapsApiKey).attributes.Some? == el.attributes.Some?
    ensures el.attributes.Some? ==>
      Get(WithMapsKey(el, mapsApiKey).attributes.value, NameKey) == Get(el.attributes.value, NameKey)
    ensures IsMapsKeyEntry(WithMapsKey(el, mapsApiKey)) == IsMapsKeyEntry(el)
    ensures IsSplitsEntry(WithMapsKey(el, mapsApiKey)) == IsSplitsEntry(el)
  {
    if IsMapsKeyEntry(el) {
      PutGetOther(el.attributes.value, ValueKey, mapsApiKey, NameKey);
    }
  }

  /** The rewrite does not change whether the application uses an app bundle. */
  lemma UsesAppBundleKept(application: Element, debuggable: bool, mapsApiKey: string)
    ensures UsesAppBundle(PatchedApplication(application, debuggable, mapsApiKey)) == UsesAppBundle(application)
  {
    if mapsApiKey != "" && application.elements.Some? {
      var before := application.elements.value;
      var after := MapsKeyApplied(before, mapsApiKey);
      forall i | 0 <= i < |before|
        ensures IsSplitsEntry(after[i]) == IsSplitsEntry(before[i])
      {
        WithMapsKeyKeepsName(before[i], mapsApiKey);
      }
    }
  }

  /** Rewriting an already rewritten application changes nothing. */
  lemma PatchedApplicationIdempotent(application: Element, debuggable: bool, mapsApiKey: string)
    ensures PatchedApplication(PatchedApplication(application, debuggable, mapsApiKey), debuggable, mapsApiKey)
         == PatchedApplication(application, debuggable, mapsApiKey)
  {
    var attrs := PatchedAttributes(application.attributes, debuggable);
    PatchedAttributesSpec(application.attributes, debuggable);
    var original := if application.attributes.Some? then application.attributes.value else [];
    var configured := Put(original, NetworkSecurityConfigKey, NetworkSecurityConfigValue);
    PutSame(attrs, NetworkSecurityConfigKey, NetworkSecurityConfigValue);
    if debuggable {
      PutSame(attrs, DebuggableKey, "true");
    }
    assert PatchedAttributes(Some(attrs), debuggable) == attrs;
    if mapsApiKey != "" && application.elements.Some? {
      var once := MapsKeyApplied(application.elements.value, mapsApiKey);
      forall i | 0 <= i < |once|
        ensures WithMapsKey(once[i], mapsApiKey) == once[i]
      {
        var el := application.elements.value[i];
        WithMapsKeyKeepsName(el, mapsApiKey);
        if IsMapsKeyEntry(el) {
          PutTwice(el.attributes.value, ValueKey, mapsApiKey);
        }
      }
      assert MapsKeyApplied(once, mapsApiKey) == once;
    }
  }

  /**
   * The rewrite finds the same manifest and application again in its own
   * output, and everything outside that application is left as it was.
   */
  lemma ModifiedManifestLocates(document: Element, debuggable: bool, mapsApiKey: string)
    requires ModifiedManifest(document, debuggable, mapsApiKey).Ok?
    ensures var (mi, ai) := Locate(document).value;
      var out := ModifiedManifest(document, debuggable, mapsApiKey).value.0;
      && Locate(out) == Locate(document)
      && out.(elements := None) == document.(elements := None)
      && |out.elements.value| == |document.elements.value|
      && (forall j | 0 <= j < |document.elements.value| && j != mi :: out.elements.value[j] == document.elements.value[j])
      && out.elements.value[mi].(elements := None) == document.elements.value[mi].(elements := None)
      && |out.elements.value[mi].elements.value| == |document.elements.value[mi].elements.value|
      && (forall j | 0 <= j < |document.elements.value[mi].elements.value| && j != ai ::
            out.elements.value[mi].elements.value[j] == document.elements.value[mi].elements.value[j])
      && out.elements.value[mi].elements.value[ai]
         == PatchedApplication(document.elements.value[mi].elements.value[ai], debuggable, mapsApiKey)
  {
    var (mi, ai) := Locate(document).value;
    var manifest := document.elements.value[mi];
    var application := manifest.elements.value[ai];
    var patched := PatchedApplication(application, debuggable, mapsApiKey);
    var manifest' := WithChild(manifest, ai, patched);
    FindNamedReplace(document.elements.value, mi, manifest', ManifestTag);
    FindNamedReplace(manifest.elements.value, ai, patched, ApplicationTag);
  }

  /**
   * Running the rewrite on its own output gives the same document back and
   * reports the same app-bundle answer.
   */
  lemma ModifiedManifestIdempotent(document: Element, debuggable: bool, mapsApiKey: string)
    requires ModifiedManifest(document, debuggable, mapsApiKey).Ok?
    ensures var (out, bundle) := ModifiedManifest(document, debuggable, mapsApiKey).value;
      ModifiedManifest(out, debuggable, mapsApiKey) == Ok((out, bundle))
  {
    var (mi, ai) := Locate(document).value;
    var application := document.elements.value[mi].elements.value[ai];
    var out := ModifiedManifest(document, debuggable, mapsApiKey).value.0;
    ModifiedManifestLocates(document, debuggable, mapsApiKey);
    PatchedApplicationIdempotent(application, debuggable, mapsApiKey);
    UsesAppBundleKept(application, debuggable, mapsApiKey);
    var manifest' := out.elements.value[mi];
    assert manifest'.elements.value[ai := manifest'.elements.value[ai]] == manifest'.elements.value;
    assert out.elements.value[mi := manifest'] == out.elements.value;
  }

  /**
   * With the default arguments (not debuggable, no Maps key) only the
   * network security configuration attribute is touched; without a Maps
   * key the children stay whether or not the app is made debuggable.
   */
  lemma DefaultsKeepChildren(application: Element)
    ensures forall debuggable: bool :: PatchedApplication(application, debuggable, "").elements == application.elements
    ensures PatchedApplication(application, false, "").elements == application.elements
    ensures PatchedApplication(application, false, "").name == application.name
    ensures forall k | k != NetworkSecurityConfigKey ::
      Get(PatchedApplication(application, false, "").attributes.value, k)
      == Get(if application.attributes.Some? then application.attributes.value else [], k)
  {
    PatchedAttributesSpec(application.attributes, false);
  }
}
