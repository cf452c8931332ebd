/** Scroll-derived navigation state (`handleScroll` without the progress
    bar), the mobile menu, and the active-link update of an in-page link
    click. Offsets are whole pixels. */
module ScrollNav {
  import opened Optional

  /** A `section`: `offsetTop`, `offsetHeight` and its `id` attribute. */
  datatype Section = Section(offsetTop: int, height: int, id: Option<string>)

  /** A `header nav a`: its `href` attribute and class list. */
  datatype Link = Link(href: Option<string>, classes: set<string>)

  /** The section test of `handleScroll`: the section, moved up by 100 px,
      spans the scroll offset. */
  predicate Contains(sec: Section, scrollY: int)
  {
    sec.offsetTop - 100 <= scrollY < sec.offsetTop - 100 + sec.height
  }

  /** The text the `id` contributes to the selector: `null` becomes "null". */
  function SelectorId(id: Option<string>): string
  {
    match id
    case Some(s) => s
    case None => "null"
  }

  /** A code point that may start a CSS identifier: an ASCII letter, '_',
      or any code point from U+0080 on. */
  predicate IsIdentStart(c: char)
  {
    ('a' <= c <= 'z') || ('A' <= c <= 'Z') || c == '_' || c as int >= 0x80
  }

  /** A code point that may continue a CSS identifier. */
  predicate IsIdentChar(c: char)
  {
    IsIdentStart(c) || ('0' <= c <= '9') || c == '-'
  }

  /** A CSS identifier written without escapes, so that it can stand
      unquoted in `a[href*=...]` and the selector searches for the id's own
      text: an identifier start, or a '-' followed by one or by a second
      '-', and then identifier code points only. */
  predicate IsCssIdent(s: string)
  {
    && s != []
    && (IsIdentStart(s[0]) || (s[0] == '-' && |s| >= 2 && (IsIdentStart(s[1]) || s[1] == '-')))
    && forall k :: 0 <= k < |s| ==> IsIdentChar(s[k])
  }

  /** Which ids stand in the selector as identifiers: in particular,
      non-ASCII letters and a leading hyphen do, a leading digit or a lone
      hyphen does not. */
  lemma IdentExamples()
    ensures IsCssIdent("home") && IsCssIdent("\U{FC}ber") && IsCssIdent("-top") && IsCssIdent("--x")
    ensures !IsCssIdent("2col") && !IsCssIdent("-") && !IsCssIdent("-2") && !IsCssIdent("")
  {
  }

  predicate OccursAt(needle: string, hay: string, i: nat)
  {
    i + |needle| <= |hay| && hay[i..i + |needle|] == needle
  }

  predicate IsSubstring(needle: string, hay: string)
  {
    exists i | 0 <= i <= |hay| - |needle| :: OccursAt(needle, hay, i)
  }

  /** `[href*=id]`: the link has an `href` and it contains the identifier. */
  predicate HrefContains(l: Link, id: string)
  {
    l.href.Some? && IsSubstring(id, l.href.value)
  }

  /** `document.querySelector('header nav a[href*=' + id + ']')`, among the
      links from position `from` on: the first one whose `href` contains `id`. */
  function FirstLinkFor(links: seq<Link>, id: string, from: nat): (r: Option<nat>)
    requires from <= |links|
    ensures r.Some? ==> from <= r.value < |links| && HrefContains(links[r.value], id)
                        && forall m :: from <= m < r.value ==> !HrefContains(links[m], id)
    ensures r.None? ==> forall m :: from <= m < |links| ==> !HrefContains(links[m], id)
    decreases |links| - from
  {
    if from == |links| then None
    else if HrefContains(links[from], id) then Some(from)
    else FirstLinkFor(links, id, from + 1)
  }

  /** The last section, in document order, that contains the scroll offset:
      every match re-marks the links, so the last one is what stays. */
  function LastMatch(sections: seq<Section>, scrollY: int): (r: Option<nat>)
    ensures r.Some? ==> r.value < |sections| && Contains(sections[r.value], scrollY)
                        && forall m :: r.value < m < |sections| ==> !Contains(sections[m], scrollY)
    ensures r.None? ==> forall m :: 0 <= m < |sections| ==> !Contains(sections[m], scrollY)
  {
    if sections == [] then None
    else if Contains(sections[|sections| - 1], scrollY) then Some(|sections| - 1)
    else LastMatch(sections[..|sections| - 1], scrollY)
  }

  /** A link with `active` removed, and added back when it is the chosen one. */
  function Marked(l: Link, chosen: bool): (r: Link)
    ensures r.href == l.href
    ensures ("active" in r.classes) <==> chosen
    ensures r.classes - {"active"} == l.classes - {"active"}
  {
    l.(classes := if chosen then l.classes - {"active"} + {"active"} else l.classes - {"active"})
  }

  /** The mark `handleScroll` gives link `m` when section `sec` matched:
      only the first link whose `href` contains its id is active. */
  predicate ChosenFor(links: seq<Link>, sec: Section, m: nat)
    requires m < |links|
  {
    FirstLinkFor(links, SelectorId(sec.id), 0) == Some(m)
  }

  /** After marking for section `sec` exactly one link is active when some
      `href` contains its id, and none otherwise; the one is the first such. */
  lemma {:induction false} MarkedForSection(links: seq<Link>, sec: Section, m: nat)
    requires m < |links|
    ensures ChosenFor(links, sec, m) <==>
              HrefContains(links[m], SelectorId(sec.id))
              && forall n :: 0 <= n < m ==> !HrefContains(links[n], SelectorId(sec.id))
  {
  }

  /** All links re-marked for `id`. */
  function MarkedLinks(links: seq<Link>, id: string): (r: seq<Link>)
    ensures |r| == |links|
    ensures forall m :: 0 <= m < |r| ==> r[m] == Marked(links[m], FirstLinkFor(links, id, 0) == Some(m))
  {
    seq(|links|, m requires 0 <= m < |links| => Marked(links[m], FirstLinkFor(links, id, 0) == Some(m)))
  }

  /** The links as `handleScroll` leaves them: untouched when no section
      contains the offset, otherwise re-marked for the last section that does. */
  function WhenScrolled(links: seq<Link>, sections: seq<Section>, scrollY: int): (r: seq<Link>)
    ensures |r| == |links|
  {
    match LastMatch(sections, scrollY)
    case None => links
    case Some(k) => MarkedLinks(links, SelectorId(sections[k].id))
  }

  /** After a scroll the links are untouched when no section contains the
      offset; otherwise the chosen link of the last section that does is the
      only active one, and the other classes and the `href`s stay. */
  lemma ScrolledMarks(links: seq<Link>, sections: seq<Section>, scrollY: int)
    ensures var r := WhenScrolled(links, sections, scrollY);
            && (LastMatch(sections, scrollY).None? ==> r == links)
            && (LastMatch(sections, scrollY).Some? ==>
                  var sec := sections[LastMatch(sections, scrollY).value];
                  forall m :: 0 <= m < |r| ==> r[m] == Marked(links[m], ChosenFor(links, sec, m)))
  {
  }

  /** One more section of the scroll loop: a section that contains the
      offset re-marks the links for its id, and the earlier marking is
      forgotten; any other section changes nothing. */
  lemma ScrollStep(links: seq<Link>, sections: seq<Section>, j: nat, scrollY: int)
    requires j < |sections|
    ensures var before := WhenScrolled(links, sections[..j], scrollY);
            WhenScrolled(links, sections[..j + 1], scrollY)
              == if Contains(sections[j], scrollY) then MarkedLinks(before, SelectorId(sections[j].id)) else before
  {
    assert sections[..j + 1][..j] == sections[..j];
    var before := WhenScrolled(links, sections[..j], scrollY);
    if Contains(sections[j], scrollY) {
      var id := SelectorId(sections[j].id);
      forall m | 0 <= m < |links|
        ensures before[m].href == links[m].href && before[m].classes - {"active"} == links[m].classes - {"active"}
      {
        match LastMatch(sections[..j], scrollY)
        case None =>
        case Some(k) =>
          assert before[m] == Marked(links[m], FirstLinkFor(links, SelectorId(sections[..j][k].id), 0) == Some(m));
      }
      MarkedAgain(links, before, id);
    }
  }

  /** The sticky-header rule. */
  predicate Sticky(scrollY: int)
  {
    scrollY > 100
  }

  /** `classList.toggle(name, on)` */
  function Toggled(classes: set<string>, name: string, on: bool): (r: set<string>)
    ensures (name in r) <==> on
    ensures r - {name} == classes - {name}
  {
    if on then classes + {name} else classes - {name}
  }

  /** The id an in-page link targets: the `href` without its '#', when the
      `href` starts with '#' and is not '#' alone. */
  function TargetId(href: string): (r: Option<string>)
    ensures r.Some? <==> |href| >= 2 && href[0] == '#'
    ensures r.Some? ==> href == "#" + r.value && r.value != []
  {
    if href != "#" && |href| >= 1 && href[0] == '#' then Some(href[1..]) else None
  }

  /** An element `getElementById` can find: its `id` attribute and `offsetTop`. */
  datatype Target = Target(id: Option<string>, offsetTop: int)

  /** `document.getElementById(id)` among the elements of the page. */
  function FindById(elements: seq<Target>, id: string): (r: Option<nat>)
    ensures r.Some? ==> r.value < |elements| && elements[r.value].id == Some(id)
                        && forall m :: 0 <= m < r.value ==> elements[m].id != Some(id)
    ensures r.None? ==> forall m :: 0 <= m < |elements| ==> elements[m].id != Some(id)
  {
    if elements == [] then None
    else if elements[0].id == Some(id) then Some(0)
    else match FindById(elements[1..], id)
      case None => None
      case Some(k) => Some(k + 1)
  }

  class Page {
    /** The `header nav a` elements, in document order. */
    var links: seq<Link>
    /** The `.header` element's classes; None when the page has none. */
    var header: Option<set<string>>
    /** `#menu-icon` and `.navbar` classes, and whether the page has each. */
    var menuIcon: set<string>
    var navbar: set<string>
    const hasMenuIcon: bool
    const hasNavbar: bool

    constructor (links: seq<Link>, header: Option<set<string>>, menuIcon: set<string>,
                 navbar: set<string>, hasMenuIcon: bool, hasNavbar: bool)
      ensures this.links == links && this.header == header
      ensures this.menuIcon == menuIcon && this.navbar == navbar
      ensures this.hasMenuIcon == hasMenuIcon && this.hasNavbar == hasNavbar
    {
      this.links := links;
      this.header := header;
      this.menuIcon := menuIcon;
      this.navbar := navbar;
      this.hasMenuIcon := hasMenuIcon;
      this.hasNavbar := hasNavbar;
    }

    predicate HasMenu()
      reads this
    {
      hasMenuIcon && hasNavbar
    }

    /** The menu icon's click listener, attached only when the icon exists:
        it flips `bx-x` on the icon and then `active` on the navbar (a page
        without a navbar stops with an error after the first flip). */
    method ToggleMenu()
      modifies this`menuIcon, this`navbar
      ensures hasMenuIcon ==> menuIcon == Toggled(old(menuIcon), "bx-x", "bx-x" !in old(menuIcon))
      ensures HasMenu() ==> navbar == Toggled(old(navbar), "active", "active" !in old(navbar))
      ensures !hasMenuIcon ==> menuIcon == old(menuIcon)
      ensures !HasMenu() ==> navbar == old(navbar)
    {
      if hasMenuIcon {
        menuIcon := Toggled(menuIcon, "bx-x", "bx-x" !in menuIcon);
        if hasNavbar {
          navbar := Toggled(navbar, "active", "active" !in navbar);
        }
      }
    }

    /** Clear `active` from every link, then add it to the first one whose
        `href` contains `id`. */
    method MarkFor(id: string)
      modifies this`links
      ensures links == MarkedLinks(old(links), id)
    {
      var j := 0;
      while j < |links|
        invariant 0 <= j <= |links| == |old(links)|
        invariant forall m :: 0 <= m < j ==> links[m] == Marked(old(links[m]), false)
        invariant forall m :: j <= m < |links| ==> links[m] == old(links[m])
      {
        links := links[j := links[j].(classes := links[j].classes - {"active"})];
        j := j + 1;
      }
      var target := FirstLinkFor(links, id, 0);
      assert forall m :: 0 <= m < |links| ==> HrefContains(links[m], id) == HrefContains(old(links[m]), id);
      FirstLinkSameHrefs(links, old(links), id, 0);
      if target.Some? {
        var t := target.value;
        links := links[t := links[t].(classes := links[t].classes + {"active"})];
      }
      assert forall m :: 0 <= m < |links| ==> links[m] == MarkedLinks(old(links), id)[m];
    }

    /** Close the mobile menu: the end of the scroll handler, and the click
        listener of every `.navbar a`. */
    method CloseMenu()
      modifies this`menuIcon, this`navbar
      ensures HasMenu() ==> menuIcon == old(menuIcon) - {"bx-x"} && navbar == old(navbar) - {"active"}
      ensures !HasMenu() ==> menuIcon == old(menuIcon) && navbar == old(navbar)
    {
      if HasMenu() {
        menuIcon := menuIcon - {"bx-x"};
        navbar := navbar - {"active"};
      }
    }

    /** `handleScroll` at offset `scrollY`, without the progress bar. Each
        section that contains the offset re-marks the links; the header is
        sticky past 100 px; the mobile menu closes. The id of every section
        that contains the offset goes into a selector, and must be a CSS
        identifier there; the ids of the other sections are never read into
        one. */
    method HandleScroll(sections: seq<Section>, scrollY: int)
      requires forall m :: 0 <= m < |sections| && Contains(sections[m], scrollY) ==> IsCssIdent(SelectorId(sections[m].id))
      modifies this`links, this`header, this`menuIcon, this`navbar
      ensures |links| == |old(links)|
      ensures links == WhenScrolled(old(links), sections, scrollY)
      ensures header == if old(header).Some? then Some(Toggled(old(header).value, "sticky", Sticky(scrollY)))
                        else None
      ensures HasMenu() ==> menuIcon == old(menuIcon) - {"bx-x"} && navbar == old(navbar) - {"active"}
      ensures !HasMenu() ==> menuIcon == old(menuIcon) && navbar == old(navbar)
    {
      var j := 0;
      while j < |sections|
        invariant 0 <= j <= |sections|
        invariant header == old(header) && menuIcon == old(menuIcon) && navbar == old(navbar)
        invariant links == WhenScrolled(old(links), sections[..j], scrollY)
      {
        var sec := sections[j];
        ScrollStep(old(links), sections, j, scrollY);
        if Contains(sec, scrollY) {
          MarkFor(SelectorId(sec.id));
        }
        j := j + 1;
      }
      assert sections[..|sections|] == sections;
      if header.Some? {
        header := Some(Toggled(header.value, "sticky", scrollY > 100));
      }
      CloseMenu();
    }

    /** The click listener of an in-page link whose `href` is `href`: when it
        names an element that exists, the page scrolls to 80 px above it and
        exactly the nav links with that same `href` become active. */
    method NavClick(href: string, elements: seq<Target>) returns (scrollTo: Option<int>)
      modifies this`links
      ensures |links| == |old(links)|
      ensures var target := if TargetId(href).Some? then FindById(elements, TargetId(href).value) else None;
              && (target.None? ==> scrollTo == None && links == old(links))
              && (target.Some? ==>
                    && scrollTo == Some(elements[target.value].offsetTop - 80)
                    && forall m :: 0 <= m < |links| ==> links[m] == Marked(old(links[m]), old(links[m]).href == Some(href)))
    {
      scrollTo := None;
      if href != "#" && |href| >= 1 && href[0] == '#' {
        var targetId := href[1..];
        var target := FindById(elements, targetId);
        if target.Some? {
          scrollTo := Some(elements[target.value].offsetTop - 80);
          var j := 0;
          while j < |links|
            invariant 0 <= j <= |links| == |old(links)|
            invariant forall m :: 0 <= m < j ==> links[m] == Marked(old(links[m]), old(links[m]).href == Some(href))
            invariant forall m :: j <= m < |links| ==> links[m] == old(links[m])
          {
            var l := links[j].(classes := links[j].classes - {"active"});
            if l.href == Some(href) {
              l := l.(classes := l.classes + {"active"});
            }
            links := links[j := l];
            j := j + 1;
          }
        }
      }
    }
  }

  /** The first link for an id depends only on the `href`s. */
  lemma {:induction false} FirstLinkSameHrefs(a: seq<Link>, b: seq<Link>, id: string, from: nat)
    requires |a| == |b| && from <= |a|
    requires forall m :: 0 <= m < |a| ==> a[m].href == b[m].href
    ensures FirstLinkFor(a, id, from) == FirstLinkFor(b, id, from)
    decreases |a| - from
  {
    if from < |a| {
      FirstLinkSameHrefs(a, b, id, from + 1);
    }
  }

  /** Marking again for another id forgets the earlier marking. */
  lemma MarkedAgain(orig: seq<Link>, before: seq<Link>, id: string)
    requires |orig| == |before|
    requires forall m :: 0 <= m < |orig| ==>
               before[m].href == orig[m].href && before[m].classes - {"active"} == orig[m].classes - {"active"}
    ensures MarkedLinks(before, id) == MarkedLinks(orig, id)
  {
    FirstLinkSameHrefs(orig, before, id, 0);
    var a, b := MarkedLinks(before, id), MarkedLinks(orig, id);
    forall m | 0 <= m < |a|
      ensures a[m] == b[m]
    {
      assert a[m].classes == b[m].classes;
    }
  }
}
