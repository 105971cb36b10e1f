/** The mutable namespace stack that the printer and the parser share as a component. */
module XmlnsStacks {
  import opened Xml
  import opened Namespaces

  /** Candidate word for a prefix, found by scanning the namespace name from its end. */
  method ComputeSuggestion(ns: string) returns (r: string)
    ensures r == SuggestPrefix(ns)
  {
    hide RunStart, SuggestFrom, LastDot;
    var len := |ns|;
    var i := LastDot(ns, |ns|);
    if i != |ns| && len - i <= 4 + 1 {
      len := i;
    }
    var last := len;
    while last > 0
      invariant 0 <= last <= len == StemLength(ns)
      invariant RunEnd(ns, last) == RunEnd(ns, len)
    {
      last := last - 1;
      if IsLetter(ns[last]) {
        r := SuggestFromRun(ns, last);
        return;
      }
    }
    return "ns";
  }

  /** The rest of the scan, once the last letter has been found at `last`. */
  method SuggestFromRun(ns: string, last: nat) returns (r: string)
    requires last < |ns| && IsLetter(ns[last])
    ensures r == SuggestFrom(ns, RunStart(ns, last + 1), last + 1)
  {
    var first, end := last, last + 1;
    while first > 0
      invariant 0 <= first <= last
      invariant RunStart(ns, first) == RunStart(ns, end)
    {
      if !IsLetter(ns[first - 1]) {
        break;
      }
      first := first - 1;
    }
    assert first == RunStart(ns, end);
    if end - first > 4 {
      end := first + 3;
    }
    var candidate := Lower(ns[first..end]);
    if !("xml" <= candidate) {
      return candidate;
    }
    return "ns";
  }

  class XmlnsStack {
    var bindings: Bindings
    var depths: seq<nat>

    constructor ()
      ensures bindings == [] && depths == []
    {
      bindings, depths := [], [];
    }

    method PushFrame()
      modifies this`depths
      ensures depths == old(depths) + [|bindings|]
    {
      depths := depths + [|bindings|];
    }

    /** Forgets every declaration made since the matching `PushFrame`. */
    method PopFrame()
      requires depths != []
      modifies this
      ensures depths == old(depths)[..|old(depths)| - 1]
      ensures var n := old(depths)[|old(depths)| - 1];
              bindings == if n < |old(bindings)| then old(bindings)[..n] else old(bindings)
    {
      var prev := depths[|depths| - 1];
      depths := depths[..|depths| - 1];
      if prev < |bindings| {
        bindings := bindings[..prev];
      }
    }

    method NsForPrefix(prefix: string) returns (r: Option<string>)
      ensures r == NsFor(bindings, prefix)
    {
      if IsReserved(prefix) {
        if prefix == "xml" {
          return Some(NS_XML);
        }
        if prefix == "xmlns" {
          return Some(NS_XMLNS);
        }
        return None;
      }
      var pos := |bindings|;
      assert bindings[..pos] == bindings;
      while pos > 0
        invariant 0 <= pos <= |bindings|
        invariant Lookup(bindings, prefix) == Lookup(bindings[..pos], prefix)
      {
        assert bindings[..pos][..pos - 1] == bindings[..pos - 1];
        pos := pos - 1;
        if bindings[pos].prefix == prefix {
          return Some(bindings[pos].ns);
        }
      }
      return if prefix == "" then Some("") else None;
    }

    method PrefixMatchesNs(prefix: string, ns: string) returns (r: bool)
      ensures r <==> NsFor(bindings, prefix) == Some(ns)
    {
      var found := NsForPrefix(prefix);
      return found == Some(ns);
    }

    method PrefixForNs(ns: string, isAttr: bool) returns (r: Option<string>)
      ensures r == PrefixFor(bindings, ns, isAttr)
    {
      if ns == NS_XML {
        return Some("xml");
      }
      if ns == NS_XMLNS {
        return Some("xmlns");
      }
      var isDefault := ns == "";
      if !isAttr {
        isDefault := PrefixMatchesNs("", ns);
      }
      if isDefault {
        return Some("");
      }
      var pos := |bindings|;
      while pos > 0
        invariant 0 <= pos <= |bindings|
        invariant ScanPrefix(bindings, |bindings|, ns, isAttr) == ScanPrefix(bindings, pos, ns, isAttr)
      {
        pos := pos - 1;
        if bindings[pos].ns == ns && (!isAttr || bindings[pos].prefix != "") {
          var visible := PrefixMatchesNs(bindings[pos].prefix, ns);
          if visible {
            return Some(bindings[pos].prefix);
          }
        }
      }
      return None;
    }

    method FormatQName(name: QName, isAttr: bool) returns (r: string)
      ensures r == Format(bindings, name, isAttr)
    {
      var prefix := PrefixForNs(name.ns, isAttr);
      if prefix == None || prefix.value == "" {
        return name.local;
      }
      return prefix.value + ":" + name.local;
    }

    method AddXmlns(prefix: string, ns: string)
      modifies this`bindings
      ensures bindings == old(bindings) + [Binding(prefix, ns)]
    {
      bindings := bindings + [Binding(prefix, ns)];
    }

    /** Declares a fresh prefix for `ns` unless it has one; returns the prefix it declared. */
    method AddNewPrefix(ns: string, isAttr: bool) returns (r: Option<string>)
      modifies this`bindings
      ensures bindings == AddNew(old(bindings), ns, isAttr)
      ensures r == if PrefixFor(old(bindings), ns, isAttr).Some? then None
                   else Some(FreshPrefix(old(bindings), ns))
      ensures bindings == old(bindings) + if r.Some? then [Binding(r.value, ns)] else []
    {
      var known := PrefixForNs(ns, isAttr);
      if known.Some? {
        return None;
      }
      var base := ComputeSuggestion(ns);
      var candidate := FindFree(base);
      AddXmlns(candidate, ns);
      return Some(candidate);
    }

    /** The retry loop: the base, then base2, base3, ... until one is not in scope. */
    method FindFree(base: string) returns (candidate: string)
      requires IsBase(base)
      ensures candidate == Candidate(base, FirstFree(bindings, base, 1))
    {
      candidate := base;
      var i := 2;
      var taken := NsForPrefix(candidate);
      while taken.Some?
        invariant 2 <= i && candidate == Candidate(base, i - 1)
        invariant taken == NsFor(bindings, candidate)
        invariant FirstFree(bindings, base, 1) == FirstFree(bindings, base, i - 1)
        decreases Obstacles(bindings, base, i - 1)
      {
        ObstaclesShrink(bindings, base, i - 1);
        candidate := base + Decimal(i);
        i := i + 1;
        taken := NsForPrefix(candidate);
      }
    }

    method Reset()
      modifies this
      ensures bindings == [] && depths == []
    {
      bindings, depths := [], [];
    }
  }
}
