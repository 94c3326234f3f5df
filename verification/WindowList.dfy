/** The list that the window builder returns: every window once, by start, endpoint and role. */
module WindowList {
  import opened Windows

  datatype EndpointWindow = EndpointWindow(key: Key, end: int, features: Features, sourceEvents: nat, verdict: Label,
                                           reasons: seq<Reason>)

  // ----- the order of windows -----

  /** Whether `a` comes before `b` in the order of Python's strings. */
  predicate TextBefore(a: string, b: string) {
    b != "" && (a == "" || a[0] < b[0] || (a[0] == b[0] && TextBefore(a[1..], b[1..])))
  }

  /** The place of a role among the role names in alphabetical order. */
  function RolePlace(role: Role): nat {
    match role
    case HostRole => 0
    case Inbound => 1
    case Internal => 2
    case Outbound => 3
    case UnknownRole => 4
  }

  predicate Before(a: Key, b: Key) {
    if a.start != b.start then a.start < b.start
    else if a.endpoint != b.endpoint then TextBefore(a.endpoint, b.endpoint)
    else RolePlace(a.role) < RolePlace(b.role)
  }

  predicate InOrder(list: seq<EndpointWindow>) {
    forall i, j | 0 <= i < j < |list| :: Before(list[i].key, list[j].key)
  }

  predicate Lists(list: seq<EndpointWindow>, key: Key) {
    exists i :: 0 <= i < |list| && list[i].key == key
  }

  /** Exactly the windows of the map, each once, by start, endpoint and role. */
  ghost predicate IsListOf(list: seq<EndpointWindow>, windows: map<Key, EndpointWindow>) {
    && InOrder(list)
    && (forall i :: 0 <= i < |list| ==> list[i].key in windows && windows[list[i].key] == list[i])
    && (forall key :: key in windows ==> Lists(list, key))
  }

  // ----- what the order is -----

  /** The texts agree up to `n`, where `a` ends or has the smaller character. */
  predicate FirstBy(a: string, b: string, n: nat) {
    n <= |a| && n < |b| && a[..n] == b[..n] && (n == |a| || a[n] < b[n])
  }

  /** A text comes before another if it is a proper front of it or smaller at the first place where they differ. */
  lemma {:induction false} TextBeforeIff(a: string, b: string)
    ensures TextBefore(a, b) <==> exists n: nat :: FirstBy(a, b, n)
  {
    if a == "" || b == "" {
      assert b != "" ==> FirstBy(a, b, 0);
    } else if a[0] != b[0] {
      assert a[0] < b[0] ==> FirstBy(a, b, 0);
      forall n: nat | 0 < n <= |a| && n < |b|
        ensures a[..n] != b[..n]
      {
        assert a[..n][0] != b[..n][0];
      }
    } else {
      TextBeforeIff(a[1..], b[1..]);
      SameFront(a, b);
    }
  }

  lemma SameFront(a: string, b: string)
    requires a != "" && b != "" && a[0] == b[0]
    ensures (exists n: nat :: FirstBy(a, b, n)) <==> exists n: nat :: FirstBy(a[1..], b[1..], n)
  {
    if n: nat :| FirstBy(a, b, n) {
      assert n > 0;
      assert a[1..][..n - 1] == a[..n][1..] && b[1..][..n - 1] == b[..n][1..];
      assert FirstBy(a[1..], b[1..], n - 1);
    }
    if n: nat :| FirstBy(a[1..], b[1..], n) {
      assert a[..n + 1] == [a[0]] + a[1..][..n] && b[..n + 1] == [b[0]] + b[1..][..n];
      assert FirstBy(a, b, n + 1);
    }
  }

  function RoleName(role: Role): string {
    match role
    case HostRole => "host"
    case Inbound => "inbound"
    case Internal => "internal"
    case Outbound => "outbound"
    case UnknownRole => "unknown"
  }

  /** Windows are listed by start, then endpoint, then the name of the role. */
  lemma BeforeMeans(a: Key, b: Key)
    ensures Before(a, b) <==>
            || a.start < b.start
            || (a.start == b.start && TextBefore(a.endpoint, b.endpoint))
            || (a.start == b.start && a.endpoint == b.endpoint && TextBefore(RoleName(a.role), RoleName(b.role)))
  {
    TextTotal(a.endpoint, b.endpoint);
    RoleNamesBefore(a.role, b.role);
  }

  lemma RoleNamesBefore(a: Role, b: Role)
    ensures RolePlace(a) < RolePlace(b) <==> TextBefore(RoleName(a), RoleName(b))
  {
    TextTotal(RoleName(a), RoleName(b));
    assert TextBefore("inbound", "internal") by {
      assert TextBefore("bound", "ternal");
      assert "inbound"[1..] == "nbound" && "nbound"[1..] == "bound";
      assert "internal"[1..] == "nternal" && "nternal"[1..] == "ternal";
    }
  }

  lemma {:induction false} TextTotal(a: string, b: string)
    ensures a == b || TextBefore(a, b) || TextBefore(b, a)
    ensures !(TextBefore(a, b) && TextBefore(b, a)) && !TextBefore(a, a)
  {
    if a != "" {
      TextTotal(a[1..], if b == "" then "" else b[1..]);
      TextTotal(a[1..], a[1..]);
      assert b != "" && a[0] == b[0] && a[1..] == b[1..] ==> a == [a[0]] + a[1..] == [b[0]] + b[1..] == b;
    }
  }

  lemma {:induction false} TextTransitive(a: string, b: string, c: string)
    requires TextBefore(a, b) && TextBefore(b, c)
    ensures TextBefore(a, c)
  {
    if a != "" && a[0] == b[0] == c[0] {
      TextTransitive(a[1..], b[1..], c[1..]);
    }
  }

  lemma KeyOrder(a: Key, b: Key)
    ensures a == b || Before(a, b) || Before(b, a)
    ensures !(Before(a, b) && Before(b, a))
  {
    TextTotal(a.endpoint, b.endpoint);
  }

  lemma BeforeTransitive(a: Key, b: Key, c: Key)
    requires Before(a, b) && Before(b, c)
    ensures Before(a, c)
  {
    if TextBefore(a.endpoint, b.endpoint) && TextBefore(b.endpoint, c.endpoint) {
      TextTransitive(a.endpoint, b.endpoint, c.endpoint);
      TextTotal(a.endpoint, c.endpoint);
      if a.endpoint == c.endpoint {
        TextTotal(a.endpoint, b.endpoint);
      }
    }
  }

  function Inserted(list: seq<EndpointWindow>, w: EndpointWindow): seq<EndpointWindow> {
    if list == [] || Before(w.key, list[0].key) then [w] + list else [list[0]] + Inserted(list[1..], w)
  }

  lemma {:induction false} InsertedInOrder(list: seq<EndpointWindow>, w: EndpointWindow)
    requires InOrder(list) && !Lists(list, w.key)
    ensures InOrder(Inserted(list, w))
    ensures forall x :: x in Inserted(list, w) <==> x == w || x in list
  {
    if list != [] {
      assert list[0].key != w.key;
      KeyOrder(w.key, list[0].key);
      if Before(w.key, list[0].key) {
        forall i | 1 <= i < |list|
          ensures Before(w.key, list[i].key)
        {
          BeforeTransitive(w.key, list[0].key, list[i].key);
        }
      } else {
        assert forall key :: Lists(list[1..], key) ==> Lists(list, key);
        InsertedInOrder(list[1..], w);
        InsertedBehind(list[0], list[1..], Inserted(list[1..], w), w);
        assert list == [list[0]] + list[1..];
      }
    }
  }

  lemma InsertedBehind(first: EndpointWindow, list: seq<EndpointWindow>, rest: seq<EndpointWindow>,
                       w: EndpointWindow)
    requires InOrder([first] + list) && InOrder(rest) && Before(first.key, w.key)
    requires forall x :: x in rest <==> x == w || x in list
    ensures InOrder([first] + rest)
    ensures forall x :: x in [first] + rest <==> x == w || x in [first] + list
  {
    forall i | 0 <= i < |rest|
      ensures Before(first.key, rest[i].key)
    {
      if rest[i] != w {
        assert rest[i] in rest;
        var j :| 0 <= j < |list| && list[j] == rest[i];
        var all := [first] + list;
        assert all[j + 1] == list[j] && Before(all[0].key, all[j + 1].key);
      }
    }
  }

  method SortWindows(windows: map<Key, EndpointWindow>) returns (list: seq<EndpointWindow>)
    requires forall key <- windows :: windows[key].key == key
    ensures IsListOf(list, windows)
  {
    list := [];
    var left := windows.Keys;
    while left != {}
      invariant left <= windows.Keys && InOrder(list)
      invariant forall x :: x in list <==> x.key in windows && x.key !in left && windows[x.key] == x
      decreases |left|
    {
      var key :| key in left;
      forall i | 0 <= i < |list|
        ensures list[i].key != key
      {
        assert list[i] in list;
      }
      InsertedInOrder(list, windows[key]);
      list := Inserted(list, windows[key]);
      left := left - {key};
    }
    forall key | key in windows
      ensures Lists(list, key)
    {
      assert windows[key] in list;
    }
  }

  /** There is only one such list. */
  lemma {:induction false} ListUnique(a: seq<EndpointWindow>, b: seq<EndpointWindow>, windows: map<Key, EndpointWindow>)
    requires IsListOf(a, windows) && IsListOf(b, windows)
    ensures a == b
    decreases |a|
  {
    if a != [] {
      SomethingListed(a, b, windows);
    }
    if b != [] {
      SomethingListed(b, a, windows);
      FirstsAgree(a, b, windows);
      var rest := windows - {a[0].key};
      WithoutFirst(a, windows);
      WithoutFirst(b, windows);
      ListUnique(a[1..], b[1..], rest);
      assert a == [a[0]] + a[1..] && b == [b[0]] + b[1..];
    }
  }

  lemma SomethingListed(a: seq<EndpointWindow>, b: seq<EndpointWindow>,
                        windows: map<Key, EndpointWindow>)
    requires IsListOf(a, windows) && IsListOf(b, windows) && a != []
    ensures b != []
  {
    assert Lists(b, a[0].key);
  }

  lemma FirstsAgree(a: seq<EndpointWindow>, b: seq<EndpointWindow>, windows: map<Key, EndpointWindow>)
    requires IsListOf(a, windows) && IsListOf(b, windows) && a != [] && b != []
    ensures a[0] == b[0]
  {
    assert Lists(a, b[0].key) && Lists(b, a[0].key);
    KeyOrder(a[0].key, b[0].key);
    var i :| 0 <= i < |a| && a[i].key == b[0].key;
    var j :| 0 <= j < |b| && b[j].key == a[0].key;
  }

  lemma WithoutFirst(a: seq<EndpointWindow>, windows: map<Key, EndpointWindow>)
    requires IsListOf(a, windows) && a != []
    ensures IsListOf(a[1..], windows - {a[0].key})
  {
    KeyOrder(a[0].key, a[0].key);
    forall key | key in windows && key != a[0].key
      ensures Lists(a[1..], key)
    {
      var i :| 0 <= i < |a| && a[i].key == key;
      assert a[1..][i - 1].key == key;
    }
  }
}
