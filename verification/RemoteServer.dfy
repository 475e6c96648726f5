/**
UI/remote_server.c: the application list that a GetApplicationList response adds to, the
address that a LaunchApplication response sets, and the status that an action reports.
*/
module RemoteServers {
  import opened Bytes
  import opened CText
  import opened RemoteText

  /** An element as libxml2 gives it: its name, its text content and its element children. */
  datatype Xml = Element(name: seq<byte>, content: seq<byte>, children: seq<Xml>)

  const ENVELOPE: seq<byte> := Ascii("Envelope")
  const BODY: seq<byte> := Ascii("Body")
  const GET_LIST: seq<byte> := Ascii("GetApplicationListResponse")
  const APP_LISTING: seq<byte> := Ascii("AppListing")
  const LAUNCH: seq<byte> := Ascii("LaunchApplicationResponse")
  const APP_URI: seq<byte> := Ascii("AppURI")
  const APP: seq<byte> := Ascii("app")
  const APP_ID: seq<byte> := Ascii("appID")
  const NAME: seq<byte> := Ascii("name")
  const DESCRIPTION: seq<byte> := Ascii("description")
  const ICON_LIST: seq<byte> := Ascii("iconList")
  const URL: seq<byte> := Ascii("url")

  /** The code follows the first child without asking whether there is one. */
  predicate Navigable(e: Xml, path: seq<seq<byte>>)
    decreases |path|
  {
    path == [] || e.name != path[0] || (e.children != [] && Navigable(e.children[0], path[1..]))
  }

  /** The element that the path of names leads to along first children, if it does. */
  function Follow(e: Xml, path: seq<seq<byte>>): Option<Xml>
    decreases |path|
  {
    if path == [] then Some(e)
    else if e.name != path[0] || e.children == [] then None
    else Follow(e.children[0], path[1..])
  }

  // ----- what a document says -----

  datatype AppValue = AppValue(id: uint32, name: Option<seq<byte>>, description: Option<seq<byte>>, icon: Option<seq<byte>>)

  /** The content of the last element of a name. */
  function LastContent(params: seq<Xml>, name: seq<byte>): Option<seq<byte>> {
    if params == [] then None
    else
      var last := params[|params| - 1];
      if last.name == name then Some(last.content) else LastContent(params[..|params| - 1], name)
  }

  /** The last identifier that scans, else 0. */
  function LastId(params: seq<Xml>): uint32 {
    if params == [] then 0
    else
      var last := params[|params| - 1];
      match (if last.name == APP_ID then ScanHex(last.content) else None)
      case Some(id) => id
      case None => LastId(params[..|params| - 1])
  }

  function IconUrl(list: Xml): Option<seq<byte>> {
    if list.children == [] then None else LastContent(list.children[0].children, URL)
  }

  /** The last address given by any icon list. */
  function LastIcon(params: seq<Xml>): Option<seq<byte>> {
    if params == [] then None
    else
      var last := params[|params| - 1];
      match (if last.name == ICON_LIST then IconUrl(last) else None)
      case Some(url) => Some(url)
      case None => LastIcon(params[..|params| - 1])
  }

  function ValueOf(params: seq<Xml>): AppValue {
    AppValue(LastId(params), LastContent(params, NAME), LastContent(params, DESCRIPTION), LastIcon(params))
  }

  /** The applications of a listing in document order. */
  function Apps(elements: seq<Xml>): seq<AppValue> {
    if elements == [] then []
    else
      var last := elements[|elements| - 1];
      Apps(elements[..|elements| - 1]) + (if last.name == APP then [ValueOf(last.children)] else [])
  }

  function Reverse<T>(s: seq<T>): (r: seq<T>)
    ensures |r| == |s| && forall i | 0 <= i < |s| :: r[i] == s[|s| - 1 - i]
  {
    if s == [] then [] else [s[|s| - 1]] + Reverse(s[..|s| - 1])
  }

  lemma {:induction false} AppsAppend(xs: seq<Xml>, ys: seq<Xml>)
    ensures Apps(xs + ys) == Apps(xs) + Apps(ys)
    decreases |ys|
  {
    hide ValueOf;
    if ys == [] {
      assert xs + ys == xs;
    } else {
      var n := |ys| - 1;
      assert (xs + ys)[..|xs + ys| - 1] == xs + ys[..n];
      AppsAppend(xs, ys[..n]);
    }
  }

  lemma ReverseAppend<T>(xs: seq<T>, ys: seq<T>)
    ensures Reverse(xs + ys) == Reverse(ys) + Reverse(xs)
  {
  }

  /** Two responses one after the other leave what their concatenation would. */
  lemma TwoListings(xs: seq<Xml>, ys: seq<Xml>, before: seq<AppValue>)
    ensures Reverse(Apps(ys)) + (Reverse(Apps(xs)) + before) == Reverse(Apps(xs + ys)) + before
  {
    hide Apps, Reverse;
    AppsAppend(xs, ys);
    ReverseAppend(Apps(xs), Apps(ys));
  }

  // ----- documents with their names written out -----

  function Leaf(name: string, content: seq<byte>): Xml {
    Element(Ascii(name), content, [])
  }

  /** A listing of one application is read back, with the address of the first of its icons. */
  lemma OneAppListing(id: uint32, name: seq<byte>, description: seq<byte>, url: seq<byte>, others: seq<Xml>)
    ensures var icon := Element(Ascii("icon"), [], [Leaf("mimetype", []), Leaf("url", url)]);
            var app := Element(Ascii("app"), [],
                               [Leaf("appID", PrintAppId(id)), Leaf("name", name), Leaf("description", description),
                                Element(Ascii("iconList"), [], [icon] + others)]);
            Apps([app]) == [AppValue(id, Some(name), Some(description), Some(url))]
  {
    hide Ascii, PrintAppId, ScanHex, APP, APP_ID, NAME, DESCRIPTION, ICON_LIST, URL;
    ListingNames();
    AppIdRoundTrip(id);
    var icon := Element(Ascii("icon"), [], [Leaf("mimetype", []), Leaf("url", url)]);
    var list := Element(Ascii("iconList"), [], [icon] + others);
    assert list.children[0] == icon;
    assert IconUrl(list) == Some(url);
    var params := [Leaf("appID", PrintAppId(id)), Leaf("name", name), Leaf("description", description), list];
    var none, one, two, three := params[..0], params[..1], params[..2], params[..3];
    OneMoreParam(params, 0);
    OneMoreParam(params, 1);
    OneMoreParam(params, 2);
    OneMoreParam(params, 3);
    NoParams(params);
    assert params[..4] == params;
    var app := Element(Ascii("app"), [], params);
    OneMoreElement([], app);
    assert [] + [app] == [app];
  }

  lemma OneMoreElement(elements: seq<Xml>, element: Xml)
    ensures Apps(elements + [element]) == Apps(elements) + (if element.name == APP then [ValueOf(element.children)] else [])
  {
    hide ValueOf, APP;
    assert (elements + [element])[..|elements|] == elements;
  }

  /** The names, apart from each other. */
  lemma ListingNames()
    ensures APP == Ascii("app") && APP_ID == Ascii("appID") && NAME == Ascii("name") && DESCRIPTION == Ascii("description")
    ensures ICON_LIST == Ascii("iconList") && URL == Ascii("url")
    ensures |{APP_ID, NAME, DESCRIPTION, ICON_LIST}| == 4
  {
    hide Ascii;
    assert |APP_ID| == 5 && |NAME| == 4 && |DESCRIPTION| == 11 && |ICON_LIST| == 8;
  }

  /** Where the two responses hold what is read from them. */
  lemma DocumentPaths(a: seq<byte>, b: seq<byte>, c: seq<byte>, inner: Xml)
    ensures var listing := Element(Ascii("Envelope"), a, [Element(Ascii("Body"), b,
                             [Element(Ascii("GetApplicationListResponse"), c, [inner])])]);
            && Navigable(listing, [ENVELOPE, BODY, GET_LIST]) && Follow(listing, [ENVELOPE, BODY, GET_LIST]) == Some(inner)
    ensures var launch := Element(Ascii("Envelope"), a, [Element(Ascii("Body"), b,
                            [Element(Ascii("LaunchApplicationResponse"), c, [inner])])]);
            && Navigable(launch, [ENVELOPE, BODY, LAUNCH]) && Follow(launch, [ENVELOPE, BODY, LAUNCH]) == Some(inner)
    ensures APP_LISTING == Ascii("AppListing") && APP_URI == Ascii("AppURI")
  {
    hide Ascii;
    PathOfThree(Ascii("Envelope"), Ascii("Body"), Ascii("GetApplicationListResponse"), a, b, c, inner);
    PathOfThree(Ascii("Envelope"), Ascii("Body"), Ascii("LaunchApplicationResponse"), a, b, c, inner);
  }

  lemma PathOfThree(x: seq<byte>, y: seq<byte>, z: seq<byte>, a: seq<byte>, b: seq<byte>, c: seq<byte>, inner: Xml)
    ensures var root := Element(x, a, [Element(y, b, [Element(z, c, [inner])])]);
            Navigable(root, [x, y, z]) && Follow(root, [x, y, z]) == Some(inner)
  {
    var third := Element(z, c, [inner]);
    var second := Element(y, b, [third]);
    var root := Element(x, a, [second]);
    assert [x, y, z][1..] == [y, z] && [y, z][1..] == [z] && [z][1..] == [];
    assert Navigable(third, [z]) && Follow(third, [z]) == Some(inner);
    assert Navigable(second, [y, z]) && Follow(second, [y, z]) == Some(inner);
  }

  // ----- the list in memory -----

  class App {
    var appID: uint32
    var name: Option<seq<byte>>
    var description: Option<seq<byte>>
    var iconPath: Option<seq<byte>>
    var next: App?

    constructor Zeroed()
      ensures appID == 0 && name == None && description == None && iconPath == None && next == null
    {
      appID, name, description, iconPath, next := 0, None, None, None, null;
    }

    function Value(): AppValue
      reads this
    {
      AppValue(appID, name, description, iconPath)
    }

    /** The loop over the parameters of one application. */
    method Fill(params: seq<Xml>)
      requires Value() == AppValue(0, None, None, None)
      modifies this
      ensures Value() == ValueOf(params) && next == old(next)
    {
      hide ScanHex, IconUrl, APP_ID, NAME, DESCRIPTION, ICON_LIST;
      NoParams(params);
      var i := 0;
      while i < |params|
        invariant 0 <= i <= |params| && Value() == ValueOf(params[..i]) && next == old(next)
      {
        var param := params[i];
        OneMoreParam(params, i);
        if param.name == APP_ID {
          var scanned := ScanHex(param.content);
          appID := if scanned.Some? then scanned.value else appID;
        }
        if param.name == NAME {
          name := Some(param.content);
        }
        if param.name == DESCRIPTION {
          description := Some(param.content);
        }
        if param.name == ICON_LIST {
          FillIcon(param);
        }
        i := i + 1;
      }
      assert params[..i] == params;
    }

    /** The addresses of the first icon. */
    method FillIcon(list: Xml)
      modifies `iconPath
      ensures iconPath == match IconUrl(list) case Some(url) => Some(url) case None => old(iconPath)
    {
      var params := if list.children == [] then [] else list.children[0].children;
      var i := 0;
      assert params[..0] == [];
      while i < |params|
        invariant 0 <= i <= |params|
        invariant iconPath == match LastContent(params[..i], URL) case Some(url) => Some(url) case None => old(iconPath)
      {
        assert params[..i + 1][..i] == params[..i];
        if params[i].name == URL {
          iconPath := Some(params[i].content);
        }
        i := i + 1;
      }
      assert params[..i] == params;
    }
  }

  lemma NoParams(params: seq<Xml>)
    ensures params[..0] == [] && ValueOf([]) == AppValue(0, None, None, None)
  {
  }

  lemma OneMoreParam(params: seq<Xml>, i: nat)
    requires i < |params|
    ensures var before, after, p := ValueOf(params[..i]), ValueOf(params[..i + 1]), params[i];
            && after.id == (match (if p.name == APP_ID then ScanHex(p.content) else None)
                            case Some(id) => id case None => before.id)
            && after.name == (if p.name == NAME then Some(p.content) else before.name)
            && after.description == (if p.name == DESCRIPTION then Some(p.content) else before.description)
            && after.icon == (match (if p.name == ICON_LIST then IconUrl(p) else None)
                              case Some(url) => Some(url) case None => before.icon)
  {
    hide ScanHex, IconUrl, APP_ID, NAME, DESCRIPTION, ICON_LIST;
    assert params[..i + 1][..i] == params[..i];
  }

  /** `nodes` are the list that starts at `head`: linked in order, ended by null, without a cycle. */
  ghost predicate IsList(head: App?, nodes: seq<App>)
    reads nodes
  {
    && head == (if nodes == [] then null else nodes[0])
    && (forall i {:trigger nodes[i].next} | 0 <= i < |nodes| :: nodes[i].next == if i + 1 < |nodes| then nodes[i + 1] else null)
    && (forall i, j | 0 <= i < j < |nodes| :: nodes[i] != nodes[j])
  }

  ghost function Values(nodes: seq<App>): seq<AppValue>
    reads nodes
  {
    seq(|nodes|, i requires 0 <= i < |nodes| reads nodes => nodes[i].Value())
  }

  class RemoteServer {
    var appList: App?
    var vncIp: seq<byte>
    var vncPort: uint16
    ghost var nodes: seq<App>

    ghost predicate Valid()
      reads this, nodes
    {
      IsList(appList, nodes)
    }

    constructor ()
      ensures Valid() && nodes == [] && vncIp == [] && vncPort == 0
    {
      appList, nodes, vncIp, vncPort := null, [], [], 0;
    }

    /** Puts an application in front of the list. */
    method Prepend(app: App)
      requires Valid() && app !in nodes
      modifies `appList, `nodes, app`next
      ensures Valid() && nodes == [app] + old(nodes)
      ensures Values(nodes) == [old(app.Value())] + old(Values(nodes))
    {
      ghost var before := nodes;
      app.next := appList;
      appList := app;
      nodes := [app] + nodes;
      assert forall i {:trigger nodes[i].next} | 1 <= i < |nodes| :: nodes[i] == before[i - 1] && before[i - 1] in before;
    }

    /** The loop of `get_application_list_parse` over the elements of the listing. */
    method AddApps(elements: seq<Xml>)
      requires Valid()
      modifies `appList, `nodes
      ensures Valid() && Values(nodes) == Reverse(Apps(elements)) + old(Values(nodes))
      ensures |old(nodes)| <= |nodes| && nodes[|nodes| - |old(nodes)|..] == old(nodes)
    {
      hide ValueOf, Values, IsList, Apps, Reverse, APP;
      ghost var values := Values(nodes);
      NoApps(elements, values);
      var i := 0;
      while i < |elements|
        invariant 0 <= i <= |elements| && Valid()
        invariant |old(nodes)| <= |nodes| && nodes[|nodes| - |old(nodes)|..] == old(nodes)
        invariant forall node <- nodes :: allocated(node)
        invariant Values(nodes) == Reverse(Apps(elements[..i])) + values
      {
        ghost var before := Values(nodes);
        var app := new App.Zeroed();
        assert Values(nodes) == before;
        OneMoreApp(elements, i);
        if elements[i].name == APP {
          app.Fill(elements[i].children);
          assert Values(nodes) == before;
          Prepend(app);
        }
        i := i + 1;
      }
      assert elements[..i] == elements;
    }

    /** `get_application_list_parse`, given the document and the one that its listing holds as text. */
    method GetApplicationListParse(root: Xml, listing: Xml) returns (result: byte)
      requires Valid() && Navigable(root, [ENVELOPE, BODY, GET_LIST])
      modifies `appList, `nodes
      ensures Valid() && result == 0
      ensures var reached := Follow(root, [ENVELOPE, BODY, GET_LIST]);
              Values(nodes) == (if reached.Some? && reached.value.name == APP_LISTING
                                then Reverse(Apps(listing.children)) else []) + old(Values(nodes))
    {
      hide Apps, Reverse, ENVELOPE, BODY, GET_LIST, APP_LISTING;
      FollowThree(root, ENVELOPE, BODY, GET_LIST);
      if root.name == ENVELOPE {
        var envelope := root.children[0];
        if envelope.name == BODY {
          var body := envelope.children[0];
          if body.name == GET_LIST {
            var response := body.children[0];
            if response.name == APP_LISTING {
              AddApps(listing.children);
            }
          }
        }
      }
      return 0;
    }

    /**
    `launch_application_parse`: the address of the started application.  A host that scans is
    stored even if no port follows; 1 is returned exactly when one of the two does not scan.
    */
    method LaunchApplicationParse(root: Xml) returns (result: byte)
      requires Navigable(root, [ENVELOPE, BODY, LAUNCH]) && HostFits(root)
      modifies `vncIp, `vncPort
      ensures var reached := Follow(root, [ENVELOPE, BODY, LAUNCH]);
              if reached.Some? && reached.value.name == APP_URI then
                var host, port := ScanHost(reached.value.content), ScanPort(reached.value.content);
                && vncIp == (if host.Some? then host.value else old(vncIp))
                && vncPort == (if port.Some? then port.value else old(vncPort))
                && result == (if host.Some? && port.Some? then 0 else 1)
              else
                vncIp == old(vncIp) && vncPort == old(vncPort) && result == 0
    {
      hide ScanHost, ScanPort, ENVELOPE, BODY, LAUNCH, APP_URI;
      FollowThree(root, ENVELOPE, BODY, LAUNCH);
      if root.name == ENVELOPE {
        var envelope := root.children[0];
        if envelope.name == BODY {
          var body := envelope.children[0];
          if body.name == LAUNCH {
            var response := body.children[0];
            if response.name == APP_URI {
              var host, port := ScanHost(response.content), ScanPort(response.content);
              if host.Some? {
                vncIp := host.value;
              }
              if port.Some? {
                vncPort := port.value;
              }
              if !(host.Some? && port.Some?) {
                return 1;
              }
            }
          }
        }
      }
      return 0;
    }

    /**
    The end of `remote_server_invoke_action` for LaunchApplication: the response code (None
    without a response) and the document.  Success is reported as 0, and 200 means that the
    address could not be read.
    */
    method ReportLaunch(code: Option<uint16>, root: Xml) returns (status: uint16)
      requires Navigable(root, [ENVELOPE, BODY, LAUNCH]) && HostFits(root)
      modifies `vncIp, `vncPort
      ensures var reached := Follow(root, [ENVELOPE, BODY, LAUNCH]);
              var answered := code == Some(200) && reached.Some? && reached.value.name == APP_URI;
              && (code == Some(200) ==>
                    status == if answered && (ScanHost(reached.value.content).None? || ScanPort(reached.value.content).None?) then 200 else 0)
              && (code != Some(200) ==> status == if code.Some? then code.value else 0)
              && (answered && ScanHost(reached.value.content).Some? && ScanPort(reached.value.content).Some? ==>
                    Some(vncIp) == ScanHost(reached.value.content) && Some(vncPort) == ScanPort(reached.value.content))
              && (!answered ==> vncIp == old(vncIp) && vncPort == old(vncPort))
    {
      hide ScanHost, ScanPort, ENVELOPE, BODY, LAUNCH, APP_URI, Follow;
      status := 0;
      if code.Some? {
        if code.value == 200 {
          var handled := LaunchApplicationParse(root);
          if handled != 0 {
            status := 200;
          }
        } else {
          status := code.value;
        }
      }
    }
  }

  /** `vnc_ip` has room for 31 characters. */
  predicate HostFits(root: Xml) {
    var reached := Follow(root, [ENVELOPE, BODY, LAUNCH]);
    reached.Some? && reached.value.name == APP_URI && ScanHost(reached.value.content).Some? ==>
      |ScanHost(reached.value.content).value| < 32
  }

  lemma FollowThree(root: Xml, a: seq<byte>, b: seq<byte>, c: seq<byte>)
    requires Navigable(root, [a, b, c])
    ensures root.name == a ==> root.children != []
    ensures root.name == a && root.children[0].name == b ==> root.children[0].children != []
    ensures root.name == a && root.children[0].name == b && root.children[0].children[0].name == c ==>
              root.children[0].children[0].children != []
    ensures Follow(root, [a, b, c]) ==
            if root.name == a && root.children[0].name == b && root.children[0].children[0].name == c
            then Some(root.children[0].children[0].children[0]) else None
  {
    assert [a, b, c][1..] == [b, c] && [b, c][1..] == [c] && [c][1..] == [];
    if root.name == a {
      var envelope := root.children[0];
      assert Navigable(envelope, [b, c]) && Follow(root, [a, b, c]) == Follow(envelope, [b, c]);
      if envelope.name == b {
        var body := envelope.children[0];
        assert Navigable(body, [c]) && Follow(envelope, [b, c]) == Follow(body, [c]);
      }
    }
  }

  lemma NoApps(elements: seq<Xml>, values: seq<AppValue>)
    ensures elements[..0] == [] && values == Reverse(Apps([])) + values
  {
  }

  lemma OneMoreApp(elements: seq<Xml>, i: nat)
    requires i < |elements|
    ensures Reverse(Apps(elements[..i + 1])) ==
            (if elements[i].name == APP then [ValueOf(elements[i].children)] else []) + Reverse(Apps(elements[..i]))
  {
    hide ValueOf;
    assert elements[..i + 1][..i] == elements[..i];
  }
}
