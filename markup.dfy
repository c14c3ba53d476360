/**
 The parts of an HTML document the scrapers look at: an element's attributes
 (for `is_element_hidden` and for the attribute clean-up of content blocks)
 and element trees (for removing `print_only` descendants before a content
 block is serialised).
 */
module Markup {
  import opened Text
  import opened Wrappers

  /** An element's attributes: every attribute except `class`, by name, and the
      `class` attribute, when present, as its list of tokens. */
  datatype Element = Element(attrs: map<string, string>, classes: Option<seq<string>>)

  /** A document node: a text node, or a tag with its attributes and children. */
  datatype Node = Text(text: string) | Tag(name: string, elem: Element, children: seq<Node>)

  // ---------------------------------------------------------------------------
  // is_element_hidden

  const HiddenClasses: seq<string> := ["hidden", "invisible", "intranet"]
  const HidingValues: seq<string> := ["false", "0", "no", "hidden"]

  /** The lower-cased inline style contains `display: none` or `visibility: hidden`. */
  predicate StyleHides(e: Element) {
    && "style" in e.attrs
    && (|| Contains(Lower(e.attrs["style"]), "display: none")
        || Contains(Lower(e.attrs["style"]), "visibility: hidden"))
  }

  /** The element carries one of the hiding classes. */
  predicate ClassHides(e: Element) {
    e.classes.Some? && exists c :: c in HiddenClasses && c in e.classes.value
  }

  /** `aria-hidden` is present and lower-cases to `true`. */
  predicate AriaHides(e: Element) {
    "aria-hidden" in e.attrs && Lower(e.attrs["aria-hidden"]) == "true"
  }

  /** A `data-` attribute whose name mentions `hidden` or `visible` and whose
      lower-cased value is one of the hiding values. */
  predicate DataAttrHides(name: string, value: string) {
    && StartsWith(name, "data-")
    && (Contains(name, "hidden") || Contains(name, "visible"))
    && Lower(value) in HidingValues
  }

  /** `is_element_hidden`: the checks in the order the source makes them, each
      returning early. */
  function IsElementHidden(e: Element): bool {
    if StyleHides(e) then true
    else if ClassHides(e) then true
    else if "hidden" in e.attrs then true
    else if AriaHides(e) then true
    else exists name :: name in e.attrs && DataAttrHides(name, e.attrs[name])
  }

  /** The early returns make a plain disjunction: an element is hidden exactly
      when one of the five checks holds, whatever their order. */
  lemma HiddenIffSomeCheck(e: Element)
    ensures IsElementHidden(e) <==>
              || StyleHides(e)
              || ClassHides(e)
              || "hidden" in e.attrs
              || AriaHides(e)
              || exists name :: name in e.attrs && DataAttrHides(name, e.attrs[name])
  {
  }

  /** An element with no attributes at all is visible. */
  lemma BareElementIsVisible()
    ensures !IsElementHidden(Element(map[], None))
  {
  }

  /** Adding attributes or classes never makes a hidden element visible. */
  lemma HiddenIsMonotone(e: Element, f: Element)
    requires forall k :: k in e.attrs ==> k in f.attrs && f.attrs[k] == e.attrs[k]
    requires e.classes.Some? ==> f.classes.Some? && forall c :: c in e.classes.value ==> c in f.classes.value
    requires IsElementHidden(e)
    ensures IsElementHidden(f)
  {
    if StyleHides(e) {
      assert StyleHides(f);
    } else if ClassHides(e) {
      var c :| c in HiddenClasses && c in e.classes.value;
      assert c in f.classes.value;
    } else if "hidden" in e.attrs {
    } else if AriaHides(e) {
      assert AriaHides(f);
    } else {
      var name :| name in e.attrs && DataAttrHides(name, e.attrs[name]);
      assert name in f.attrs && DataAttrHides(name, f.attrs[name]);
    }
  }

  /** `data-visible="false"` (in any case) hides an element. */
  lemma DataVisibleFalseHides(e: Element)
    requires "data-visible" in e.attrs && Lower(e.attrs["data-visible"]) == "false"
    ensures IsElementHidden(e)
  {
    var name := "data-visible";
    assert StartsWith(name, "data-");
    assert Contains(name, "visible") by {
      assert StartsWith(name[5..], "visible");
      ContainsSuffix(name, 5, "visible");
    }
    assert DataAttrHides(name, e.attrs[name]);
  }

  /** A string that some suffix of `s` contains is contained in `s`. */
  lemma {:induction false} ContainsSuffix(s: string, k: nat, sub: string)
    requires k <= |s| && Contains(s[k..], sub)
    ensures Contains(s, sub)
    decreases k
  {
    if k > 0 {
      assert s[1..][k - 1..] == s[k..];
      ContainsSuffix(s[1..], k - 1, sub);
    }
  }

  /** Every character of a contained string occurs in the containing one. */
  lemma {:induction false} ContainsChar(s: string, sub: string, i: nat)
    requires Contains(s, sub) && i < |sub|
    ensures sub[i] in s
    decreases |s|
  {
    if StartsWith(s, sub) {
      assert s[i] == sub[i];
    } else {
      ContainsChar(s[1..], sub, i);
      var j :| 0 <= j < |s[1..]| && s[1..][j] == sub[i];
      assert s[j + 1] == sub[i];
    }
  }

  /** Both style needles contain a space, so a style with no space in it,
      such as `display:none`, never hides an element. */
  lemma StyleWithoutSpaceDoesNotHide(e: Element)
    requires "style" in e.attrs && forall i :: 0 <= i < |e.attrs["style"]| ==> e.attrs["style"][i] != ' '
    ensures !StyleHides(e)
  {
    var low := Lower(e.attrs["style"]);
    assert ' ' !in low by {
      forall i | 0 <= i < |low| ensures low[i] != ' ' {
        assert LowerChar(e.attrs["style"][i]) == low[i];
      }
    }
    if Contains(low, "display: none") {
      ContainsChar(low, "display: none", 8);
    }
    if Contains(low, "visibility: hidden") {
      ContainsChar(low, "visibility: hidden", 11);
    }
  }

  // ---------------------------------------------------------------------------
  // Content blocks: print-only removal and attribute clean-up

  /** The tag carries the class `print_only`. */
  predicate IsPrintOnly(n: Node) {
    n.Tag? && n.elem.classes.Some? && "print_only" in n.elem.classes.value
  }

  /** No `print_only` tag occurs anywhere in the forest. */
  predicate NoPrintOnly(ns: seq<Node>)
    decreases ns
  {
    forall i :: 0 <= i < |ns| ==> !IsPrintOnly(ns[i]) && (ns[i].Tag? ==> NoPrintOnly(ns[i].children))
  }

  /** Decomposing every `print_only` descendant: each such tag is removed with
      its whole subtree; everything else keeps its place. */
  function RemovePrintOnly(ns: seq<Node>): (r: seq<Node>)
    ensures |r| <= |ns|
    decreases ns
  {
    if ns == [] then []
    else if IsPrintOnly(ns[0]) then RemovePrintOnly(ns[1..])
    else match ns[0]
      case Text(_) => [ns[0]] + RemovePrintOnly(ns[1..])
      case Tag(name, elem, children) => [Tag(name, elem, RemovePrintOnly(children))] + RemovePrintOnly(ns[1..])
  }

  /** After the removal no `print_only` tag is left at any depth. */
  lemma {:induction false} RemovePrintOnlyLeavesNone(ns: seq<Node>)
    ensures NoPrintOnly(RemovePrintOnly(ns))
    decreases ns
  {
    if ns != [] {
      RemovePrintOnlyLeavesNone(ns[1..]);
      var rest := RemovePrintOnly(ns[1..]);
      if !IsPrintOnly(ns[0]) {
        match ns[0]
        case Text(_) =>
          assert RemovePrintOnly(ns) == [ns[0]] + rest;
        case Tag(name, elem, children) =>
          RemovePrintOnlyLeavesNone(children);
          assert RemovePrintOnly(ns) == [Tag(name, elem, RemovePrintOnly(children))] + rest;
      }
    }
  }

  /** A forest with no `print_only` tag is left as it is. */
  lemma {:induction false} RemovePrintOnlyKeepsClean(ns: seq<Node>)
    requires NoPrintOnly(ns)
    ensures RemovePrintOnly(ns) == ns
    decreases ns
  {
    if ns != [] {
      assert NoPrintOnly(ns[1..]) by {
        forall i | 0 <= i < |ns[1..]| ensures !IsPrintOnly(ns[1..][i]) && (ns[1..][i].Tag? ==> NoPrintOnly(ns[1..][i].children)) {
          assert ns[1..][i] == ns[i + 1];
        }
      }
      RemovePrintOnlyKeepsClean(ns[1..]);
      match ns[0]
      case Text(_) =>
      case Tag(name, elem, children) =>
        RemovePrintOnlyKeepsClean(children);
    }
  }

  /** Removing `print_only` tags twice removes nothing more. */
  lemma RemovePrintOnlyIdempotent(ns: seq<Node>)
    ensures RemovePrintOnly(RemovePrintOnly(ns)) == RemovePrintOnly(ns)
  {
    RemovePrintOnlyLeavesNone(ns);
    RemovePrintOnlyKeepsClean(RemovePrintOnly(ns));
  }

  /** The removal works node by node: a forest made of two parts loses the
      `print_only` tags of each part and nothing else. */
  lemma {:induction false} RemovePrintOnlyAppend(a: seq<Node>, b: seq<Node>)
    ensures RemovePrintOnly(a + b) == RemovePrintOnly(a) + RemovePrintOnly(b)
    decreases |a|
  {
    if a == [] {
      assert a + b == b;
    } else {
      assert (a + b)[0] == a[0];
      assert (a + b)[1..] == a[1..] + b;
      RemovePrintOnlyAppend(a[1..], b);
      var rest := RemovePrintOnly(a[1..] + b);
      if !IsPrintOnly(a[0]) {
        match a[0]
        case Text(_) =>
          assert RemovePrintOnly(a + b) == [a[0]] + rest;
        case Tag(name, elem, children) =>
          assert RemovePrintOnly(a + b) == [Tag(name, elem, RemovePrintOnly(children))] + rest;
      }
    }
  }

  /** What happens to one node: a `print_only` tag disappears with its
      subtree; a text node survives as it is; any other tag survives with its
      name and attributes, its children cleaned the same way. */
  lemma RemovePrintOnlyNode(n: Node)
    ensures IsPrintOnly(n) ==> RemovePrintOnly([n]) == []
    ensures !IsPrintOnly(n) ==> |RemovePrintOnly([n])| == 1
    ensures n.Text? ==> RemovePrintOnly([n]) == [n]
    ensures n.Tag? && !IsPrintOnly(n) ==>
              var m := RemovePrintOnly([n])[0];
              m.Tag? && m.name == n.name && m.elem == n.elem && m.children == RemovePrintOnly(n.children)
  {
    assert [n][1..] == [];
  }

  /** Deleting, one by one, every attribute whose name is not allowed
      (`for attr in list(attrs.keys()): if attr not in allowed: del attrs[attr]`). */
  method KeepAllowedAttributes(attrs: map<string, string>, allowed: set<string>) returns (kept: map<string, string>)
    ensures kept.Keys == attrs.Keys * allowed
    ensures forall k :: k in kept ==> kept[k] == attrs[k]
  {
    kept := attrs;
    var todo := attrs.Keys;
    while todo != {}
      invariant todo <= attrs.Keys
      invariant kept.Keys == (attrs.Keys - todo) * allowed + todo
      invariant forall k :: k in kept ==> kept[k] == attrs[k]
      decreases todo
    {
      var k :| k in todo;
      if k !in allowed {
        kept := kept - {k};
      }
      todo := todo - {k};
    }
  }
}
