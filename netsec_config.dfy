/**
 * The rewrite of the app's network security configuration: certificate
 * pinning rules at the top level go, and debug builds trust certificates the
 * user installed. A missing configuration file is created with a default
 * that does exactly that.
 */
module NetsecConfig {
  import opened Base
  import opened XmlElement
  import opened FileSystem

  /**
   * A node of the XML library's compact tree (every element kept as an
   * array): an object whose entries map element names to arrays of nodes,
   * `_attributes` to an attribute object, `_declaration` to a single
   * object, and text or comments to raw values.
   */
  datatype Node = Node(members: seq<(string, Value)>)
  datatype Value = Nodes(nodes: seq<Node>) | Single(node: Node) | Attrs(attrs: Attributes) | Raw(text: string)

  const ConfigKey := "network-security-config"
  const PinSetKey := "pin-set"
  const DebugOverridesKey := "debug-overrides"
  const TrustAnchorsKey := "trust-anchors"
  const CertificatesKey := "certificates"
  const AttributesKey := "_attributes"
  const SourceKey := "src"
  const UserSource := "user"

  /** The text written when the app has no configuration file. */
  const DefaultConfig :=
    "<?xml version=\"1.0\" encoding=\"utf-8\"?>\n<network-security-config>\n    <debug-overrides>\n" +
    "        <trust-anchors>\n            <certificates src=\"user\" />\n        </trust-anchors>\n" +
    "    </debug-overrides>\n</network-security-config>"

  /**
   * Why the rewrite throws: the text is not XML, there is no
   * `network-security-config` element, an element the rewrite descends into
   * is not an array of nodes, or a `certificates` entry has no attributes.
   */
  datatype NetsecError = ParseFailed | NoConfig | Malformed(key: string) | CertificateWithoutAttributes

  /** `node[key]`. */
  function Member(node: Node, key: string): Option<Value> {
    Get(node.members, key)
  }

  /** `{ _attributes: { src: 'user' } }`. */
  const UserCertificate := Node([(AttributesKey, Attrs([(SourceKey, UserSource)]))])

  /** `c._attributes` is present (reading `.src` from it does not throw). */
  predicate HasAttributes(c: Node) {
    Member(c, AttributesKey).Some?
  }

  /** `c._attributes.src === 'user'`. */
  predicate IsUserCertificate(c: Node) {
    match Member(c, AttributesKey)
    case Some(Attrs(a)) => Get(a, SourceKey) == Some(UserSource)
    case _ => false
  }

  /** `node[key] || (node[key] = [{}])`: the existing array, or a fresh one holding an empty object. */
  function ChildList(node: Node, key: string): (r: Result<seq<Node>, NetsecError>)
    ensures r.Ok? ==> |r.value| > 0
  {
    match Member(node, key)
    case None => Ok([Node([])])
    case Some(Nodes(ns)) => if |ns| > 0 then Ok(ns) else Err(Malformed(key))
    case Some(_) => Err(Malformed(key))
  }

  /** `node[key] = [first, ...rest]`, keeping the key's place. */
  function WithFirst(node: Node, key: string, first: Node, list: seq<Node>): Node
    requires |list| > 0
  {
    Node(Put(node.members, key, Nodes([first] + list[1..])))
  }

  /** The certificate list after the filter and the push. */
  function PatchedCertificates(certificates: seq<Node>): Result<seq<Node>, NetsecError>
  {
    if exists i | 0 <= i < |certificates| :: !HasAttributes(certificates[i]) then Err(CertificateWithoutAttributes)
    else if exists i | 0 <= i < |certificates| :: IsUserCertificate(certificates[i]) then Ok(certificates)
    else Ok(certificates + [UserCertificate])
  }

  /** The `trust-anchors` node after its certificates are patched. */
  function PatchedTrustAnchors(anchors: Node): Result<Node, NetsecError>
  {
    var certificates: Result<seq<Node>, NetsecError> :=
      match Member(anchors, CertificatesKey)
      case None => Ok([])
      case Some(Nodes(cs)) => Ok(cs)
      case Some(_) => Err(Malformed(CertificatesKey));
    if certificates.Err? then Err(certificates.error)
    else
      var patched := PatchedCertificates(certificates.value);
      if patched.Err? then Err(patched.error)
      else Ok(Node(Put(anchors.members, CertificatesKey, Nodes(patched.value))))
  }

  /** The `debug-overrides` node after its first `trust-anchors` is patched. */
  function PatchedOverrides(overrides: Node): Result<Node, NetsecError>
  {
    var anchors := ChildList(overrides, TrustAnchorsKey);
    if anchors.Err? then Err(anchors.error)
    else
      var patched := PatchedTrustAnchors(anchors.value[0]);
      if patched.Err? then Err(patched.error)
      else Ok(WithFirst(overrides, TrustAnchorsKey, patched.value, anchors.value))
  }

  /** The configuration node without its `pin-set` and with its first `debug-overrides` patched. */
  function PatchedConfigNode(config: Node): Result<Node, NetsecError>
  {
    var unpinned := Node(Delete(config.members, PinSetKey));
    var overrides := ChildList(unpinned, DebugOverridesKey);
    if overrides.Err? then Err(overrides.error)
    else
      var patched := PatchedOverrides(overrides.value[0]);
      if patched.Err? then Err(patched.error)
      else Ok(WithFirst(unpinned, DebugOverridesKey, patched.value, overrides.value))
  }

  /** The parsed document after the rewrite of its first `network-security-config`. */
  function PatchedDocument(document: Node): Result<Node, NetsecError>
  {
    match Member(document, ConfigKey)
    case Some(Nodes(configs)) =>
      if |configs| == 0 then Err(NoConfig)
      else
        var patched := PatchedConfigNode(configs[0]);
        if patched.Err? then Err(patched.error)
        else Ok(WithFirst(document, ConfigKey, patched.value, configs))
    case _ => Err(NoConfig)
  }

  /** The first node of `node[key]`, when it is a non-empty array. */
  function FirstChild(node: Node, key: string): Option<Node>
  {
    match Member(node, key)
    case Some(Nodes(ns)) => if |ns| > 0 then Some(ns[0]) else None
    case _ => None
  }

  /** A certificate list that trusts user certificates and that the filter reads without throwing. */
  predicate TrustsUser(anchors: Node) {
    match Member(anchors, CertificatesKey)
    case Some(Nodes(cs)) =>
      (forall i | 0 <= i < |cs| :: HasAttributes(cs[i])) &&
      exists i | 0 <= i < |cs| :: IsUserCertificate(cs[i])
    case _ => false
  }

  /**
   * The configuration is already as the rewrite leaves it: no top-level
   * `pin-set`, and the first trust anchors of the first debug overrides
   * trust user certificates.
   */
  predicate Configured(document: Node) {
    match FirstChild(document, ConfigKey)
    case None => false
    case Some(config) =>
      Member(config, PinSetKey).None? &&
      match FirstChild(config, DebugOverridesKey)
      case None => false
      case Some(overrides) =>
        match FirstChild(overrides, TrustAnchorsKey)
        case None => false
        case Some(anchors) => TrustsUser(anchors)
  }

  /** The tree the default configuration text stands for, from the innermost element out. */
  const DefaultAnchors := Node([(CertificatesKey, Nodes([UserCertificate]))])
  const DefaultOverrides := Node([(TrustAnchorsKey, Nodes([DefaultAnchors]))])
  const DefaultConfigNode := Node([(DebugOverridesKey, Nodes([DefaultOverrides]))])
  const Declaration := Single(Node([(AttributesKey, Attrs([("version", "1.0"), ("encoding", "utf-8")]))]))
  const DefaultTree := Node([("_declaration", Declaration), (ConfigKey, Nodes([DefaultConfigNode]))])

  /** The text written for the file at `path`, or the error the rewrite throws. */
  function ConfigText(existing: Option<string>, parse: string -> Option<Node>, serialize: Node -> string): Result<string, NetsecError>
  {
    if existing.None? then Ok(DefaultConfig)
    else match parse(existing.value)
      case None => Err(ParseFailed)
      case Some(document) =>
        var patched := PatchedDocument(document);
        if patched.Err? then Err(patched.error) else Ok(serialize(patched.value))
  }

  /**
   * `modifyNetworkSecurityConfig`: a missing file gets the default configuration, an existing
   * one is parsed, rewritten and written back; nothing is written when the
   * rewrite throws. The XML library's parser and serialiser are parameters.
   */
  method ModifyNetworkSecurityConfig(fs: FileStore, path: string, parse: string -> Option<Node>, serialize: Node -> string)
    returns (r: Result<(), NetsecError>)
    modifies fs
    ensures var text := ConfigText(if path in old(fs.files) then Some(old(fs.files)[path]) else None, parse, serialize);
      && (r.Ok? <==> text.Ok?)
      && (text.Err? ==> r.error == text.error && fs.files == old(fs.files) && fs.writes == old(fs.writes))
      && (text.Ok? ==> fs.files == old(fs.files)[path := text.value] && fs.writes == old(fs.writes) + [path])
  {
    var present := fs.Exists(path);
    if !present {
      fs.WriteFile(path, DefaultConfig);
      return Ok(());
    }
    var content := fs.ReadFile(path);
    var document := parse(content.value);
    if document.None? {
      return Err(ParseFailed);
    }
    var patched := PatchedDocument(document.value);
    if patched.Err? {
      return Err(patched.error);
    }
    fs.WriteFile(path, serialize(patched.value));
    r := Ok(());
  }

  /**
   * The certificate list after the patch trusts the user, or the filter
   * threw; a list that already trusts the user is kept, any other gains one
   * user entry at its end.
   */
  lemma PatchedCertificatesSpec(certificates: seq<Node>)
    ensures PatchedCertificates(certificates).Err? <==> exists i | 0 <= i < |certificates| :: !HasAttributes(certificates[i])
    ensures PatchedCertificates(certificates).Ok? ==>
      var cs := PatchedCertificates(certificates).value;
      && cs[..|certificates|] == certificates
      && (forall i | 0 <= i < |cs| :: HasAttributes(cs[i]))
      && (exists i | 0 <= i < |cs| :: IsUserCertificate(cs[i]))
      && ((exists i | 0 <= i < |certificates| :: IsUserCertificate(certificates[i])) ==> cs == certificates)
      && (!(exists i | 0 <= i < |certificates| :: IsUserCertificate(certificates[i])) ==> cs == certificates + [UserCertificate])
  {
    var cs := certificates + [UserCertificate];
    assert cs[|certificates|] == UserCertificate;
    assert Member(UserCertificate, AttributesKey) == Some(Attrs([(SourceKey, UserSource)]));
    assert Get([(SourceKey, UserSource)], SourceKey) == Some(UserSource);
    assert IsUserCertificate(cs[|certificates|]);
  }

  /** Patched trust anchors trust the user certificates. */
  lemma TrustAnchorsTrustUser(anchors: Node)
    requires PatchedTrustAnchors(anchors).Ok?
    ensures TrustsUser(PatchedTrustAnchors(anchors).value)
  {
    var certificates: seq<Node> :=
      match Member(anchors, CertificatesKey)
      case None => []
      case Some(Nodes(cs)) => cs;
    PatchedCertificatesSpec(certificates);
    PutGet(anchors.members, CertificatesKey, Nodes(PatchedCertificates(certificates).value));
  }

  /** After a successful rewrite the document is configured. */
  lemma PatchedDocumentConfigured(document: Node)
    requires PatchedDocument(document).Ok?
    ensures Configured(PatchedDocument(document).value)
  {
    var configs := Member(document, ConfigKey).value.nodes;
    var config := configs[0];
    var unpinned := Node(Delete(config.members, PinSetKey));
    var overrides := ChildList(unpinned, DebugOverridesKey).value;
    var anchorsList := ChildList(overrides[0], TrustAnchorsKey).value;
    var anchors := anchorsList[0];
    TrustAnchorsTrustUser(anchors);
    var anchors' := PatchedTrustAnchors(anchors).value;
    var overrides' := PatchedOverrides(overrides[0]).value;
    PutGet(overrides[0].members, TrustAnchorsKey, Nodes([anchors'] + anchorsList[1..]));
    assert FirstChild(overrides', TrustAnchorsKey) == Some(anchors');
    var config' := PatchedConfigNode(config).value;
    PutGet(unpinned.members, DebugOverridesKey, Nodes([overrides'] + overrides[1..]));
    PutGetOther(unpinned.members, DebugOverridesKey, Nodes([overrides'] + overrides[1..]), PinSetKey);
    assert FirstChild(config', DebugOverridesKey) == Some(overrides');
    var document' := PatchedDocument(document).value;
    PutGet(document.members, ConfigKey, Nodes([config'] + configs[1..]));
    assert FirstChild(document', ConfigKey) == Some(config');
  }

  /** A configured trust-anchors node is left as it is. */
  lemma TrustAnchorsFixed(anchors: Node)
    requires TrustsUser(anchors)
    ensures PatchedTrustAnchors(anchors) == Ok(anchors)
  {
    var cs := Member(anchors, CertificatesKey).value.nodes;
    PutSame(anchors.members, CertificatesKey, Nodes(cs));
  }

  /** `debug-overrides` whose first `trust-anchors` already trusts the user certificates is left as it is. */
  lemma OverridesFixed(overrides: Node)
    requires FirstChild(overrides, TrustAnchorsKey).Some? && TrustsUser(FirstChild(overrides, TrustAnchorsKey).value)
    ensures PatchedOverrides(overrides) == Ok(overrides)
  {
    var anchorsList := Member(overrides, TrustAnchorsKey).value.nodes;
    TrustAnchorsFixed(anchorsList[0]);
    assert [anchorsList[0]] + anchorsList[1..] == anchorsList;
    PutSame(overrides.members, TrustAnchorsKey, Nodes(anchorsList));
  }

  /** A configuration node without `pin-set` whose first `debug-overrides` is configured is left as it is. */
  lemma ConfigNodeFixed(config: Node)
    requires Member(config, PinSetKey).None? && FirstChild(config, DebugOverridesKey).Some?
    requires PatchedOverrides(FirstChild(config, DebugOverridesKey).value) == Ok(FirstChild(config, DebugOverridesKey).value)
    ensures PatchedConfigNode(config) == Ok(config)
  {
    DeleteAbsent(config.members, PinSetKey);
    var overrides := Member(config, DebugOverridesKey).value.nodes;
    assert [overrides[0]] + overrides[1..] == overrides;
    PutSame(config.members, DebugOverridesKey, Nodes(overrides));
  }

  /** A configured document is left as it is. */
  lemma ConfiguredFixed(document: Node)
    requires Configured(document)
    ensures PatchedDocument(document) == Ok(document)
  {
    var configs := Member(document, ConfigKey).value.nodes;
    var config := configs[0];
    OverridesFixed(FirstChild(config, DebugOverridesKey).value);
    ConfigNodeFixed(config);
    assert [config] + configs[1..] == configs;
    PutSame(document.members, ConfigKey, Nodes(configs));
  }

  /** The rewrite leaves a document as it is exactly when it is already configured. */
  lemma FixedIffConfigured(document: Node)
    ensures PatchedDocument(document) == Ok(document) <==> Configured(document)
  {
    if Configured(document) {
      ConfiguredFixed(document);
    }
    if PatchedDocument(document) == Ok(document) {
      PatchedDocumentConfigured(document);
    }
  }

  /** Rewriting the rewritten document changes nothing. */
  lemma PatchedDocumentIdempotent(document: Node)
    requires PatchedDocument(document).Ok?
    ensures PatchedDocument(PatchedDocument(document).value) == PatchedDocument(document)
  {
    PatchedDocumentConfigured(document);
    ConfiguredFixed(PatchedDocument(document).value);
  }

  /**
   * Everything but the first configuration's `pin-set` and `debug-overrides`
   * is left as it was: other top-level entries, other configuration
   * elements, and the configuration's other entries (so pin sets inside
   * `domain-config` stay).
   */
  lemma PatchedDocumentKeepsRest(document: Node)
    requires PatchedDocument(document).Ok?
    ensures var document' := PatchedDocument(document).value;
      && (forall k | k != ConfigKey :: Member(document', k) == Member(document, k))
      && Member(document', ConfigKey).Some? && Member(document', ConfigKey).value.Nodes?
      && var configs := Member(document, ConfigKey).value.nodes;
         var configs' := Member(document', ConfigKey).value.nodes;
         && |configs'| == |configs| > 0
         && configs'[1..] == configs[1..]
         && PatchedConfigNode(configs[0]) == Ok(configs'[0])
         && forall k | k != PinSetKey && k != DebugOverridesKey ::
              Member(configs'[0], k) == Member(configs[0], k)
  {
    var configs := Member(document, ConfigKey).value.nodes;
    var config := configs[0];
    var config' := PatchedConfigNode(config).value;
    var unpinned := Node(Delete(config.members, PinSetKey));
    var overrides := ChildList(unpinned, DebugOverridesKey).value;
    var overrides' := PatchedOverrides(overrides[0]).value;
    forall k | k != ConfigKey
      ensures Member(PatchedDocument(document).value, k) == Member(document, k)
    {
      PutGetOther(document.members, ConfigKey, Nodes([config'] + configs[1..]), k);
    }
    PutGet(document.members, ConfigKey, Nodes([config'] + configs[1..]));
    forall k | k != PinSetKey && k != DebugOverridesKey
      ensures Member(config', k) == Member(config, k)
    {
      PutGetOther(unpinned.members, DebugOverridesKey, Nodes([overrides'] + overrides[1..]), k);
      DeleteGetOther(config.members, PinSetKey, k);
    }
  }

  /**
   * Patching the certificates touches no other member of `trust-anchors`,
   * and the certificates that were there stay first.
   */
  lemma TrustAnchorsKeepsRest(anchors: Node)
    requires PatchedTrustAnchors(anchors).Ok?
    ensures var anchors' := PatchedTrustAnchors(anchors).value;
      && (forall k | k != CertificatesKey :: Member(anchors', k) == Member(anchors, k))
      && Member(anchors', CertificatesKey).Some? && Member(anchors', CertificatesKey).value.Nodes?
      && (Member(anchors, CertificatesKey).None? ||
          (Member(anchors, CertificatesKey).value.Nodes? &&
           Member(anchors, CertificatesKey).value.nodes <= Member(anchors', CertificatesKey).value.nodes))
  {
    var certificates: seq<Node> :=
      match Member(anchors, CertificatesKey)
      case None => []
      case Some(Nodes(cs)) => cs;
    PatchedCertificatesSpec(certificates);
    var cs' := PatchedCertificates(certificates).value;
    PutGet(anchors.members, CertificatesKey, Nodes(cs'));
    forall k | k != CertificatesKey
      ensures Member(PatchedTrustAnchors(anchors).value, k) == Member(anchors, k)
    {
      PutGetOther(anchors.members, CertificatesKey, Nodes(cs'), k);
    }
  }

  /**
   * Patching `debug-overrides` touches no member but `trust-anchors`, whose
   * list keeps its length and every entry after the first.
   */
  lemma OverridesKeepsRest(overrides: Node)
    requires PatchedOverrides(overrides).Ok?
    ensures var overrides' := PatchedOverrides(overrides).value;
      && (forall k | k != TrustAnchorsKey :: Member(overrides', k) == Member(overrides, k))
      && ChildList(overrides, TrustAnchorsKey).Ok?
      && var anchors := ChildList(overrides, TrustAnchorsKey).value;
         && Member(overrides', TrustAnchorsKey).Some? && Member(overrides', TrustAnchorsKey).value.Nodes?
         && var anchors' := Member(overrides', TrustAnchorsKey).value.nodes;
            && |anchors'| == |anchors|
            && anchors'[1..] == anchors[1..]
            && PatchedTrustAnchors(anchors[0]) == Ok(anchors'[0])
  {
    var anchors := ChildList(overrides, TrustAnchorsKey).value;
    var list := [PatchedTrustAnchors(anchors[0]).value] + anchors[1..];
    PutGet(overrides.members, TrustAnchorsKey, Nodes(list));
    assert list[1..] == anchors[1..];
    forall k | k != TrustAnchorsKey
      ensures Member(PatchedOverrides(overrides).value, k) == Member(overrides, k)
    {
      PutGetOther(overrides.members, TrustAnchorsKey, Nodes(list), k);
    }
  }

  /**
   * Patching a configuration node drops its `pin-set` and touches no other
   * member but `debug-overrides`, whose list keeps its length and every
   * entry after the first.
   */
  lemma ConfigNodeKeepsRest(config: Node)
    requires PatchedConfigNode(config).Ok?
    ensures var config' := PatchedConfigNode(config).value;
      && Member(config', PinSetKey).None?
      && (forall k | k != PinSetKey && k != DebugOverridesKey :: Member(config', k) == Member(config, k))
      && ChildList(config, DebugOverridesKey).Ok?
      && var overrides := ChildList(config, DebugOverridesKey).value;
         && Member(config', DebugOverridesKey).Some? && Member(config', DebugOverridesKey).value.Nodes?
         && var overrides' := Member(config', DebugOverridesKey).value.nodes;
            && |overrides'| == |overrides|
            && overrides'[1..] == overrides[1..]
            && PatchedOverrides(overrides[0]) == Ok(overrides'[0])
  {
    var unpinned := Node(Delete(config.members, PinSetKey));
    DeleteGetOther(config.members, PinSetKey, DebugOverridesKey);
    assert ChildList(unpinned, DebugOverridesKey) == ChildList(config, DebugOverridesKey);
    var overrides := ChildList(config, DebugOverridesKey).value;
    var list := [PatchedOverrides(overrides[0]).value] + overrides[1..];
    PutGet(unpinned.members, DebugOverridesKey, Nodes(list));
    PutGetOther(unpinned.members, DebugOverridesKey, Nodes(list), PinSetKey);
    assert list[1..] == overrides[1..];
    forall k | k != PinSetKey && k != DebugOverridesKey
      ensures Member(PatchedConfigNode(config).value, k) == Member(config, k)
    {
      PutGetOther(unpinned.members, DebugOverridesKey, Nodes(list), k);
      DeleteGetOther(config.members, PinSetKey, k);
    }
  }

  /**
   * Inside the first configuration the rewrite reaches only the first
   * `debug-overrides` and, in it, the first `trust-anchors`: the later
   * entries of both lists and every other member of both nodes stay.
   */
  lemma PatchedDocumentKeepsNested(document: Node)
    requires PatchedDocument(document).Ok?
    ensures Member(document, ConfigKey).Some? && Member(document, ConfigKey).value.Nodes?
    ensures |Member(document, ConfigKey).value.nodes| > 0
    ensures var config := Member(document, ConfigKey).value.nodes[0];
      var config' := PatchedConfigNode(config);
      && config'.Ok?
      && ChildList(config, DebugOverridesKey).Ok?
      && Member(config'.value, DebugOverridesKey).Some? && Member(config'.value, DebugOverridesKey).value.Nodes?
      && var overrides := ChildList(config, DebugOverridesKey).value;
         var overrides' := Member(config'.value, DebugOverridesKey).value.nodes;
         && |overrides'| == |overrides|
         && overrides'[1..] == overrides[1..]
         && (forall k | k != TrustAnchorsKey :: Member(overrides'[0], k) == Member(overrides[0], k))
         && ChildList(overrides[0], TrustAnchorsKey).Ok?
         && Member(overrides'[0], TrustAnchorsKey).Some? && Member(overrides'[0], TrustAnchorsKey).value.Nodes?
         && var anchors := ChildList(overrides[0], TrustAnchorsKey).value;
            var anchors' := Member(overrides'[0], TrustAnchorsKey).value.nodes;
            && |anchors'| == |anchors|
            && anchors'[1..] == anchors[1..]
            && forall k | k != CertificatesKey :: Member(anchors'[0], k) == Member(anchors[0], k)
  {
    var config := Member(document, ConfigKey).value.nodes[0];
    ConfigNodeKeepsRest(config);
    var overrides := ChildList(config, DebugOverridesKey).value;
    OverridesKeepsRest(overrides[0]);
    var anchors := ChildList(overrides[0], TrustAnchorsKey).value;
    TrustAnchorsKeepsRest(anchors[0]);
  }

  /** The default written for a missing file is already configured: a later run keeps it. */
  lemma DefaultTreeConfigured()
    ensures Configured(DefaultTree)
    ensures PatchedDocument(DefaultTree) == Ok(DefaultTree)
  {
    assert Member(UserCertificate, AttributesKey) == Some(Attrs([(SourceKey, UserSource)]));
    assert IsUserCertificate(UserCertificate);
    assert Member(DefaultAnchors, CertificatesKey) == Some(Nodes([UserCertificate]));
    assert HasAttributes(UserCertificate) && [UserCertificate][0] == UserCertificate;
    assert TrustsUser(DefaultAnchors);
    assert FirstChild(DefaultOverrides, TrustAnchorsKey) == Some(DefaultAnchors);
    assert FirstChild(DefaultConfigNode, DebugOverridesKey) == Some(DefaultOverrides);
    assert Member(DefaultConfigNode, PinSetKey).None?;
    assert |"_declaration"| != |ConfigKey|;
    assert DefaultTree.members[0].0 != ConfigKey;
    assert DefaultTree.members[1..] == [(ConfigKey, Nodes([DefaultConfigNode]))];
    assert Get(DefaultTree.members[1..], ConfigKey) == Some(Nodes([DefaultConfigNode]));
    assert Get(DefaultTree.members, ConfigKey) == Get(DefaultTree.members[1..], ConfigKey);
    ConfiguredFixed(DefaultTree);
  }
}
