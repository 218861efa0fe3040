/** White space as Python's str methods see it. */
module PythonText {

  /** Where str.splitlines breaks a text read with universal newlines. */
  predicate IsBreak(c: char) {
    || c == '\n' || c == '\U{0B}' || c == '\U{0C}' || '\U{1C}' <= c <= '\U{1E}' || c == '\U{85}'
    || c == '\U{2028}' || c == '\U{2029}'
  }

  predicate IsSpace(c: char) {
    || IsBreak(c) || c == '\t' || c == '\r' || c == '\U{1F}' || c == ' ' || c == '\U{A0}' || c == '\U{1680}'
    || '\U{2000}' <= c <= '\U{200A}' || c == '\U{202F}' || c == '\U{205F}' || c == '\U{3000}'
  }

  const BREAKS := {10, 11, 12, 28, 29, 30, 133, 8232, 8233}

  const OTHER_SPACES := {9, 13, 31, 32, 160, 5760, 8192, 8193, 8194, 8195, 8196, 8197, 8198, 8199, 8200, 8201, 8202,
                         8239, 8287, 12288}

  /** The two classes as code points. */
  lemma CodePoints(c: char)
    ensures IsBreak(c) <==> c as int in BREAKS
    ensures IsSpace(c) <==> c as int in BREAKS + OTHER_SPACES
  {
  }

  function Lstrip(s: string): string {
    if s != "" && IsSpace(s[0]) then Lstrip(s[1..]) else s
  }

  function Rstrip(s: string): string {
    if s != "" && IsSpace(s[|s| - 1]) then Rstrip(s[..|s| - 1]) else s
  }

  function Strip(s: string): string { Rstrip(Lstrip(s)) }

  // ---------- What stripping leaves ----------

  predicate White(s: string) {
    forall c | c in s :: IsSpace(c)
  }

  /** `s` is `t` with white space around it, and `t` has none at its ends. */
  ghost predicate Trimmed(s: string, t: string) {
    && (t == "" || (!IsSpace(t[0]) && !IsSpace(t[|t| - 1])))
    && exists lead, trail :: White(lead) && White(trail) && s == lead + t + trail
  }

  lemma {:induction false} LstripSplits(s: string)
    ensures |Lstrip(s)| <= |s|
    ensures s == s[..|s| - |Lstrip(s)|] + Lstrip(s) && White(s[..|s| - |Lstrip(s)|])
  {
    hide IsSpace;
    if s != "" && IsSpace(s[0]) {
      var tail := s[1..];
      LstripSplits(tail);
      assert s[..|s| - |Lstrip(s)|] == [s[0]] + tail[..|tail| - |Lstrip(tail)|];
    }
  }

  lemma {:induction false} RstripSplits(s: string)
    ensures |Rstrip(s)| <= |s|
    ensures s == Rstrip(s) + s[|Rstrip(s)|..] && White(s[|Rstrip(s)|..])
    ensures Rstrip(s) != "" ==> !IsSpace(Rstrip(s)[|Rstrip(s)| - 1])
  {
    hide IsSpace;
    if s != "" && IsSpace(s[|s| - 1]) {
      var front := s[..|s| - 1];
      RstripSplits(front);
      assert s[|Rstrip(s)|..] == front[|Rstrip(front)|..] + [s[|s| - 1]];
    }
  }

  lemma {:induction false} LstripIndent(indent: string, s: string)
    requires forall i | 0 <= i < |indent| :: IsSpace(indent[i])
    requires s == "" || !IsSpace(s[0])
    ensures Lstrip(indent + s) == s
  {
    hide IsSpace;
    if indent == "" {
      assert indent + s == s;
    } else {
      assert (indent + s)[0] == indent[0] && (indent + s)[1..] == indent[1..] + s;
      LstripIndent(indent[1..], s);
    }
  }

  lemma {:induction false} RstripTail(s: string, tail: string)
    requires White(tail) && (s == "" || !IsSpace(s[|s| - 1]))
    ensures Rstrip(s + tail) == s
  {
    hide IsSpace;
    if tail == "" {
      assert s + tail == s;
    } else {
      var n := |tail| - 1;
      assert (s + tail)[|s + tail| - 1] == tail[n] && (s + tail)[..|s + tail| - 1] == s + tail[..n];
      assert tail[n] in tail;
      RstripTail(s, tail[..n]);
    }
  }

  /** Stripping leaves the text without the white space at its ends. */
  lemma StripExactly(s: string, t: string)
    ensures Strip(s) == t <==> Trimmed(s, t)
  {
    hide IsSpace, Lstrip, Rstrip;
    if Strip(s) == t { StripTrims(s); }
    if Trimmed(s, t) {
      var lead, trail :| White(lead) && White(trail) && s == lead + t + trail;
      StripOf(lead, t, trail);
    }
  }

  lemma StripTrims(s: string)
    ensures Trimmed(s, Strip(s))
  {
    hide IsSpace, Rstrip;
    var l := Lstrip(s);
    var t := Rstrip(l);
    LstripSplits(s);
    RstripSplits(l);
    LstripEnds(s);
    hide Lstrip;
    var lead, trail := s[..|s| - |l|], l[|t|..];
    assert White(lead);
    assert s == lead + t + trail;
  }

  lemma {:induction false} LstripEnds(s: string)
    ensures Lstrip(s) != "" ==> !IsSpace(Lstrip(s)[0])
  {
    hide IsSpace;
    if s != "" && IsSpace(s[0]) { LstripEnds(s[1..]); }
  }

  lemma StripOf(lead: string, t: string, trail: string)
    requires White(lead) && White(trail) && (t == "" || (!IsSpace(t[0]) && !IsSpace(t[|t| - 1])))
    ensures Strip(lead + t + trail) == t
  {
    hide IsSpace, Lstrip, Rstrip;
    if t == "" {
      var all := lead + t + trail;
      assert White(all);
      LstripIndent(all, "");
      assert all + "" == all;
      RstripTail("", "");
      assert "" + "" == "";
    } else {
      assert lead + t + trail == lead + (t + trail);
      LstripIndent(lead, t + trail);
      RstripTail(t, trail);
    }
  }
}
