/** The link editors of the settings form: footer columns with their links, and
    navigation links with their child links.  Each editor reads one record,
    builds a new list with a spread or a `filter`, and writes the record back;
    here an editor is a function from the old record to the new one, and the
    form store around it is not modelled. */
module SettingsLinks {
  import opened Wrappers

  /** `list.filter((_, i) => i !== k)`: every element except the one at index
      `k`; an index outside the list removes nothing. */
  function WithoutIndex<T>(s: seq<T>, k: int): (r: seq<T>)
    ensures 0 <= k < |s| ==> r == s[..k] + s[k + 1..]
    ensures !(0 <= k < |s|) ==> r == s
    decreases |s|
  {
    if s == [] then []
    else
      var rest := WithoutIndex(s[1..], k - 1);
      if k == 0 then rest else [s[0]] + rest
  }

  /** Element by element: what comes before `k` stays where it was, what comes
      after moves one place to the front. */
  lemma WithoutIndexElements<T>(s: seq<T>, k: int)
    requires 0 <= k < |s|
    ensures |WithoutIndex(s, k)| == |s| - 1
    ensures forall i :: 0 <= i < k ==> WithoutIndex(s, k)[i] == s[i]
    ensures forall i :: k <= i < |s| - 1 ==> WithoutIndex(s, k)[i] == s[i + 1]
  {
  }

  // Footer columns

  datatype FooterLink = FooterLink(title: string, url: string)

  /** A footer column; `links` is undefined in a column stored without it. */
  datatype FooterColumn = FooterColumn(heading: string, links: Option<seq<FooterLink>>)

  const BlankFooterLink := FooterLink("", "")

  /** `column.links || []` */
  function FooterLinksOf(c: FooterColumn): (r: seq<FooterLink>)
    ensures c.links.Some? ==> r == c.links.value
    ensures c.links.None? ==> r == []
  {
    match c.links
    case Some(l) => l
    case None => []
  }

  /** addFooterColumn: a column "New Column" holding one blank link is
      appended. */
  function AddFooterColumn(columns: seq<FooterColumn>): (r: seq<FooterColumn>)
    ensures |r| == |columns| + 1 && r[..|columns|] == columns
    ensures r[|columns|] == FooterColumn("New Column", Some([BlankFooterLink]))
  {
    columns + [FooterColumn("New Column", Some([BlankFooterLink]))]
  }

  /** addFooterLink: a blank link is appended to the column's links (none yet
      counts as an empty list); the heading is kept. */
  function AddFooterLink(c: FooterColumn): (r: FooterColumn)
    ensures r.heading == c.heading
    ensures r.links.Some? && |r.links.value| == |FooterLinksOf(c)| + 1
    ensures r.links.value[..|FooterLinksOf(c)|] == FooterLinksOf(c)
    ensures r.links.value[|FooterLinksOf(c)|] == BlankFooterLink
  {
    c.(links := Some(FooterLinksOf(c) + [BlankFooterLink]))
  }

  /** removeFooterLink: the link at index `k` is dropped and the order of the
      others is kept.  A column whose links are undefined makes the original
      throw; that is None here. */
  function RemoveFooterLink(c: FooterColumn, k: int): (r: Option<FooterColumn>)
    ensures r.None? <==> c.links.None?
    ensures r.Some? ==> r.value.heading == c.heading && r.value.links == Some(WithoutIndex(c.links.value, k))
  {
    match c.links
    case None => None
    case Some(l) => Some(c.(links := Some(WithoutIndex(l, k))))
  }

  /** Adding a link and then removing the last one gives back the column, with
      undefined links now the empty list. */
  lemma RemoveAddedFooterLink(c: FooterColumn)
    ensures RemoveFooterLink(AddFooterLink(c), |FooterLinksOf(c)|) == Some(c.(links := Some(FooterLinksOf(c))))
  {
    var l := FooterLinksOf(c);
    assert (l + [BlankFooterLink])[..|l|] == l && (l + [BlankFooterLink])[|l| + 1..] == [];
    assert WithoutIndex(l + [BlankFooterLink], |l|) == l;
  }

  /** Removing a link in range shortens the column by one, removing one out of
      range changes nothing. */
  lemma RemoveFooterLinkLength(c: FooterColumn, k: int)
    requires c.links.Some?
    ensures var r := RemoveFooterLink(c, k).value.links.value;
      if 0 <= k < |c.links.value| then |r| == |c.links.value| - 1 else r == c.links.value
  {
  }

  // Navigation links

  datatype ChildLink = ChildLink(name: string, href: string, icon: string, description: string)

  /** A navigation link; `children` is undefined in a link stored without it. */
  datatype NavLink = NavLink(title: string, href: string, hasChildren: bool, children: Option<seq<ChildLink>>)

  const NewChildLink := ChildLink("", "#", "ChartPieIcon", "")

  /** `link.children || []` */
  function ChildrenOf(n: NavLink): (r: seq<ChildLink>)
    ensures n.children.Some? ==> r == n.children.value
    ensures n.children.None? ==> r == []
  {
    match n.children
    case Some(l) => l
    case None => []
  }

  /** addMainLink: a link with no children is appended. */
  function AddMainLink(links: seq<NavLink>): (r: seq<NavLink>)
    ensures |r| == |links| + 1 && r[..|links|] == links
    ensures r[|links|] == NavLink("", "#", false, Some([]))
  {
    links + [NavLink("", "#", false, Some([]))]
  }

  /** addChildLink: a new child is appended (undefined children count as an
      empty list) and the link is marked as having children.  Setting the
      children to [] first when they are undefined is overwritten by the final
      write, so it does not show. */
  function AddChildLink(n: NavLink): (r: NavLink)
    ensures r.title == n.title && r.href == n.href && r.hasChildren
    ensures r.children.Some? && |r.children.value| == |ChildrenOf(n)| + 1
    ensures r.children.value[..|ChildrenOf(n)|] == ChildrenOf(n)
    ensures r.children.value[|ChildrenOf(n)|] == NewChildLink
  {
    n.(hasChildren := true, children := Some(ChildrenOf(n) + [NewChildLink]))
  }

  /** removeChildLink: the child at index `k` is dropped; when none is left the
      link is marked as having no children, and otherwise the mark is left as
      it was.  Undefined children make the original throw; that is None here. */
  function RemoveChildLink(n: NavLink, k: int): (r: Option<NavLink>)
    ensures r.None? <==> n.children.None?
    ensures r.Some? ==> r.value.title == n.title && r.value.href == n.href
    ensures r.Some? ==> r.value.children == Some(WithoutIndex(n.children.value, k))
    ensures r.Some? ==> (r.value.hasChildren <==> n.hasChildren && |r.value.children.value| > 0)
  {
    match n.children
    case None => None
    case Some(l) =>
      var updated := WithoutIndex(l, k);
      Some(n.(children := Some(updated), hasChildren := if |updated| == 0 then false else n.hasChildren))
  }

  /** The mark agrees with the list: a link is marked as having children
      exactly when it has some. */
  predicate MarkAgrees(n: NavLink) {
    n.hasChildren <==> |ChildrenOf(n)| > 0
  }

  /** Adding a child makes the mark agree whatever it was before. */
  lemma AddChildMarkAgrees(n: NavLink)
    ensures MarkAgrees(AddChildLink(n))
  {
  }

  /** Removing a child keeps an agreeing mark agreeing. */
  lemma RemoveChildKeepsMark(n: NavLink, k: int)
    requires n.children.Some? && MarkAgrees(n)
    ensures MarkAgrees(RemoveChildLink(n, k).value)
  {
  }

  /** Removing the only child of a link clears the mark, whatever it was. */
  lemma RemoveOnlyChild(n: NavLink)
    requires n.children.Some? && |n.children.value| == 1
    ensures RemoveChildLink(n, 0) == Some(n.(children := Some([]), hasChildren := false))
  {
  }

  /** Adding a child and removing it again gives back the children; the mark
      of a link that had children is back as well. */
  lemma RemoveAddedChild(n: NavLink)
    ensures var r := RemoveChildLink(AddChildLink(n), |ChildrenOf(n)|);
      r.Some? && r.value.children == Some(ChildrenOf(n)) && r.value.title == n.title && r.value.href == n.href
    ensures |ChildrenOf(n)| > 0 ==> RemoveChildLink(AddChildLink(n), |ChildrenOf(n)|).value.hasChildren
    ensures |ChildrenOf(n)| == 0 ==> !RemoveChildLink(AddChildLink(n), |ChildrenOf(n)|).value.hasChildren
  {
    var l := ChildrenOf(n);
    assert (l + [NewChildLink])[..|l|] == l && (l + [NewChildLink])[|l| + 1..] == [];
    assert WithoutIndex(l + [NewChildLink], |l|) == l;
  }

  // Class names

  /** An argument of classNames: a string, or a falsy value (false, null,
      undefined, 0). */
  datatype ClassArg = Name(s: string) | Falsy

  /** `classes.filter(Boolean)`: the non-empty strings, in order. */
  function KeptClasses(args: seq<ClassArg>): (r: seq<string>)
    ensures |r| <= |args|
    ensures forall c :: c in r ==> c != [] && Name(c) in args
    ensures forall a :: a in args && a.Name? && a.s != [] ==> a.s in r
  {
    if args == [] then []
    else
      var rest := KeptClasses(args[1..]);
      if args[0].Name? && args[0].s != [] then [args[0].s] + rest else rest
  }

  /** `classes.filter(Boolean)` keeps a string argument exactly when it is
      not empty. */
  lemma KeptSingle(a: ClassArg)
    ensures KeptClasses([a]) == if a.Name? && a.s != [] then [a.s] else []
  {
    assert [a][1..] == [];
  }

  /** The first argument is filtered on its own. */
  lemma KeptCons(x: ClassArg, rest: seq<ClassArg>)
    ensures KeptClasses([x] + rest) == KeptClasses([x]) + KeptClasses(rest)
  {
    assert ([x] + rest)[1..] == rest;
    assert [x][1..] == [];
  }

  /** `filter` works argument by argument: it keeps the order of the
      arguments. */
  lemma {:induction false} KeptConcat(a: seq<ClassArg>, b: seq<ClassArg>)
    ensures KeptClasses(a + b) == KeptClasses(a) + KeptClasses(b)
    decreases |a|
  {
    if a == [] {
      assert a + b == b;
    } else {
      var x, tail := a[0], a[1..];
      assert a == [x] + tail;
      assert a + b == [x] + (tail + b);
      calc {
        KeptClasses(a + b);
        { KeptCons(x, tail + b); }
        KeptClasses([x]) + KeptClasses(tail + b);
        { KeptConcat(tail, b); }
        KeptClasses([x]) + (KeptClasses(tail) + KeptClasses(b));
        (KeptClasses([x]) + KeptClasses(tail)) + KeptClasses(b);
        { KeptCons(x, tail); }
        KeptClasses(a) + KeptClasses(b);
      }
    }
  }

  /** `parts.join(sep)`: empty exactly when there is no part or one empty part,
      and it begins with the first part. */
  function Join(parts: seq<string>, sep: char): (r: string)
    ensures r == [] <==> |parts| == 0 || (|parts| == 1 && parts[0] == [])
    ensures |parts| >= 1 ==> |r| >= |parts[0]| && r[..|parts[0]|] == parts[0]
  {
    if |parts| == 0 then ""
    else if |parts| == 1 then parts[0]
    else parts[0] + [sep] + Join(parts[1..], sep)
  }

  /** `s.split(sep)`: the pieces between the separators; "" splits into [""]. */
  function Split(s: string, sep: char): (r: seq<string>)
    ensures |r| >= 1
  {
    if s == [] then [""]
    else
      var rest := Split(s[1..], sep);
      if s[0] == sep then [""] + rest else [[s[0]] + rest[0]] + rest[1..]
  }

  /** classNames(...classes): empty exactly when no argument is a non-empty
      string. */
  function ClassNames(args: seq<ClassArg>): (r: string)
    ensures r == [] <==> forall a :: a in args ==> !(a.Name? && a.s != [])
  {
    var kept := KeptClasses(args);
    assert kept != [] ==> kept[0] in kept;
    Join(kept, ' ')
  }

  lemma {:induction false} SplitPiece(a: string, sep: char)
    requires sep !in a
    ensures Split(a, sep) == [a]
    decreases |a|
  {
    if a != [] {
      SplitPiece(a[1..], sep);
      assert [a[0]] + a[1..] == a;
    }
  }

  lemma {:induction false} SplitAfterPiece(a: string, sep: char, b: string)
    requires sep !in a
    ensures Split(a + [sep] + b, sep) == [a] + Split(b, sep)
    decreases |a|
  {
    if a == [] {
      assert a + [sep] + b == [sep] + b;
      assert ([sep] + b)[1..] == b;
    } else {
      SplitAfterPiece(a[1..], sep, b);
      assert (a + [sep] + b)[1..] == a[1..] + [sep] + b;
      assert [a[0]] + a[1..] == a;
    }
  }

  /** Splitting a join on its separator gives the pieces back, as long as
      there is at least one and none contains the separator. */
  lemma {:induction false} SplitJoin(parts: seq<string>, sep: char)
    requires |parts| >= 1 && forall p :: p in parts ==> sep !in p
    ensures Split(Join(parts, sep), sep) == parts
    decreases |parts|
  {
    if |parts| == 1 {
      SplitPiece(parts[0], sep);
    } else {
      SplitJoin(parts[1..], sep);
      SplitAfterPiece(parts[0], sep, Join(parts[1..], sep));
      assert [parts[0]] + parts[1..] == parts;
    }
  }

  /** The class string lists the non-empty class names, in order, one space
      apart: splitting it on spaces gives them back when none contains a
      space. */
  lemma ClassNamesSplit(args: seq<ClassArg>)
    requires KeptClasses(args) != []
    requires forall c :: c in KeptClasses(args) ==> ' ' !in c
    ensures Split(ClassNames(args), ' ') == KeptClasses(args)
  {
    SplitJoin(KeptClasses(args), ' ');
  }
}
