/**
 * The tree.def emitter of the `gendef` tool: a language description's
 * ordered list of tree node types is written out as a fixed banner comment
 * followed by one `DEFTYPE(name, "friendly name")` macro line per type.
 *
 * The output stream is modelled as the string written to it.  Both names
 * go through a `%s` conversion applied to a C string, so each is written
 * verbatim (nothing is escaped) and only up to its first NUL character.
 */
module GenTypes {
  import opened SeqFacts

  /** One tree node type of the language description. */
  datatype TreeType = TreeType(name: string, friendlyName: string)

  /** The part of a loaded language description that the emitter reads. */
  datatype Lang = Lang(treeTypes: seq<TreeType>)

  /** The fixed comment that opens every tree.def file. */
  const Banner: string :=
    "/*\n"
    + " * tree.def - Type definition for the `tree' structure.\n"
    + " *\n"
    + " * Automatically generated by gendef. DO NOT EDIT.\n"
    + " */\n\n"

  /** The literal pieces of the format "DEFTYPE(%s, \"%s\")\n". */
  const LinePrefix: string := "DEFTYPE("
  const LineSeparator: string := ", \""
  const LineClose: string := "\")"
  const LineSuffix: string := LineClose + "\n"

  /** Every character of the format other than the two conversions. */
  const FormatOverhead: nat := |LinePrefix| + |LineSeparator| + |LineSuffix|

  /** The position of the first `c` in `s`, or `|s|` when `c` is absent. */
  function FirstIndex(s: string, c: char): (r: nat)
    ensures r <= |s|
    ensures c !in s[..r]
    ensures r < |s| ==> s[r] == c
  {
    if s == [] || s[0] == c then 0
    else
      var r' := FirstIndex(s[1..], c);
      assert s[..1 + r'] == [s[0]] + s[1..][..r'];
      1 + r'
  }

  /** In `a + b`, a `c` that opens `b` and is absent from `a` is the first. */
  lemma {:induction false} FirstIndexAt(a: string, b: string, c: char)
    requires c !in a && b != [] && b[0] == c
    ensures FirstIndex(a + b, c) == |a|
  {
    if a == [] {
      assert a + b == b;
    } else {
      assert (a + b)[0] == a[0] != c;
      assert (a + b)[1..] == a[1..] + b;
      assert c !in a[1..] by {
        assert a == [a[0]] + a[1..];
      }
      FirstIndexAt(a[1..], b, c);
    }
  }

  /**
   * What a `%s` conversion writes for a string handed over as a C string:
   * its longest prefix without a NUL character.
   */
  function CStr(s: string): (r: string)
    ensures r <= s
    ensures '\0' !in r
    ensures r == s || s[|r|] == '\0'
  {
    s[..FirstIndex(s, '\0')]
  }

  /** `%s` writes a C string up to, and not including, its first NUL. */
  lemma CStrUpToNul(n: string, rest: string)
    requires '\0' !in n
    ensures CStr(n + "\0" + rest) == n
  {
    Associate(n, "\0", rest);
    FirstIndexAt(n, "\0" + rest, '\0');
  }

  /** The line written for one node type. */
  function Line(t: TreeType): string
  {
    LinePrefix + CStr(t.name) + LineSeparator + CStr(t.friendlyName) + LineSuffix
  }

  /** The lines written for a list of node types, in list order. */
  function Body(ts: seq<TreeType>): string
  {
    if ts == [] then [] else Line(ts[0]) + Body(ts[1..])
  }

  /** The whole content of tree.def for a list of node types. */
  function Render(ts: seq<TreeType>): string
  {
    Banner + Body(ts)
  }

  /** Writes tree.def for `lang`: the banner, then one line per node type. */
  method OutputTreeDef(lang: Lang) returns (f: string)
    ensures f == Render(lang.treeTypes)
  {
    var ts := lang.treeTypes;
    f := Banner;
    var i := 0;
    while i < |ts|
      invariant 0 <= i <= |ts|
      invariant f == Banner + Body(ts[..i])
    {
      BodyPrefixStep(ts, i);
      Associate(Banner, Body(ts[..i]), Line(ts[i]));
      f := f + Line(ts[i]);
      i := i + 1;
    }
    TakeAll(ts);
  }

  // ---------------------------------------------------------------------
  // Properties of the rendered file

  /** Neither name of a node type holds a NUL character. */
  predicate NoNul(t: TreeType)
  {
    '\0' !in t.name && '\0' !in t.friendlyName
  }

  /** Every file opens with the banner, whatever the node types. */
  lemma RenderStartsWithBanner(ts: seq<TreeType>)
    ensures Banner <= Render(ts)
    ensures Render(ts)[|Banner|..] == Body(ts)
  {
  }

  /** A language without node types yields the banner and nothing else. */
  lemma RenderEmpty()
    ensures Render([]) == Banner
  {
  }

  /**
   * Every line opens with `DEFTYPE(`, closes with `")` and a line break, and
   * adds the fourteen characters of the format to the two written names.
   */
  lemma LineShape(t: TreeType)
    ensures |Line(t)| == |CStr(t.name)| + |CStr(t.friendlyName)| + FormatOverhead
    ensures FormatOverhead == 14
    ensures LinePrefix <= Line(t)
    ensures Line(t)[|Line(t)| - |LineSuffix|..] == LineSuffix
  {
  }

  /**
   * Without NUL characters, each name is written verbatim: the line is
   * `DEFTYPE(`, the name bare, `, "`, the friendly name, `")` and a line
   * break, and neither name is escaped.
   */
  lemma LineVerbatim(t: TreeType)
    requires NoNul(t)
    ensures Line(t) == LinePrefix + t.name + LineSeparator + t.friendlyName + LineSuffix
  {
  }

  /** What follows a NUL character in either name never reaches the output. */
  lemma LineTruncatesAtNul(t: TreeType)
    ensures Line(t) == Line(TreeType(CStr(t.name), CStr(t.friendlyName)))
  {
    CStrIdempotent(t.name);
    CStrIdempotent(t.friendlyName);
  }

  lemma CStrIdempotent(s: string)
    ensures CStr(CStr(s)) == CStr(s)
  {
  }

  /**
   * Writing a list in two parts writes the same characters as writing it
   * at once: appending a node type appends exactly its line and leaves what
   * was already written unchanged.
   */
  lemma {:induction false} BodyAppend(a: seq<TreeType>, b: seq<TreeType>)
    ensures Body(a + b) == Body(a) + Body(b)
  {
    if a == [] {
      assert a + b == b;
    } else {
      assert (a + b)[1..] == a[1..] + b;
      BodyAppend(a[1..], b);
    }
  }

  /** A list of one node type is written as that type's line alone. */
  lemma BodySingleton(t: TreeType)
    ensures Body([t]) == Line(t)
  {
    assert [t][1..] == [];
  }

  /** Appending one node type to the list appends exactly its line. */
  lemma BodyPush(ts: seq<TreeType>, t: TreeType)
    ensures Body(ts + [t]) == Body(ts) + Line(t)
  {
    BodyAppend(ts, [t]);
    BodySingleton(t);
  }

  /** Writing one more entry of a list extends the lines written so far. */
  lemma BodyPrefixStep(ts: seq<TreeType>, i: nat)
    requires i < |ts|
    ensures Body(ts[..i + 1]) == Body(ts[..i]) + Line(ts[i])
  {
    TakeNext(ts, i);
    BodyPush(ts[..i], ts[i]);
  }

  /**
   * The file depends on each node type only through its line: lists whose
   * entries are written alike, position by position, give the same file.
   */
  lemma {:induction false} RenderOfSameLines(a: seq<TreeType>, b: seq<TreeType>)
    requires |a| == |b|
    requires forall k :: 0 <= k < |a| ==> Line(a[k]) == Line(b[k])
    ensures Body(a) == Body(b) && Render(a) == Render(b)
  {
    if a != [] {
      assert Line(a[0]) == Line(b[0]);
      RenderOfSameLines(a[1..], b[1..]);
    }
  }

  /**
   * The line of the i-th node type sits between the lines of the types
   * before it and the lines of the types after it.
   */
  lemma BodyAt(ts: seq<TreeType>, i: nat)
    requires i < |ts|
    ensures Body(ts) == Body(ts[..i]) + Line(ts[i]) + Body(ts[i + 1..])
  {
    BodySplit(ts, i);
    BodyFrom(ts, i);
    Associate(Body(ts[..i]), Line(ts[i]), Body(ts[i + 1..]));
  }

  lemma BodySplit(ts: seq<TreeType>, i: nat)
    requires i <= |ts|
    ensures Body(ts) == Body(ts[..i]) + Body(ts[i..])
  {
    SplitAt(ts, i);
    BodyAppend(ts[..i], ts[i..]);
  }

  lemma BodyFrom(ts: seq<TreeType>, i: nat)
    requires i < |ts|
    ensures Body(ts[i..]) == Line(ts[i]) + Body(ts[i + 1..])
  {
    assert ts[i..][0] == ts[i] && ts[i..][1..] == ts[i + 1..];
  }

  /** The number of characters each node type contributes to the body. */
  function LineLengths(ts: seq<TreeType>): nat
  {
    if ts == [] then 0
    else |CStr(ts[0].name)| + |CStr(ts[0].friendlyName)| + FormatOverhead + LineLengths(ts[1..])
  }

  /** The same sum when no name holds a NUL character. */
  function NameLengths(ts: seq<TreeType>): nat
  {
    if ts == [] then 0
    else |ts[0].name| + |ts[0].friendlyName| + 14 + NameLengths(ts[1..])
  }

  /** The file length is the banner's plus each line's. */
  lemma {:induction false} RenderLength(ts: seq<TreeType>)
    ensures |Render(ts)| == |Banner| + LineLengths(ts)
  {
    BodyLength(ts);
  }

  lemma {:induction false} BodyLength(ts: seq<TreeType>)
    ensures |Body(ts)| == LineLengths(ts)
  {
    if ts != [] {
      BodyLength(ts[1..]);
    }
  }

  /**
   * Without NUL characters, the file has the banner's length plus, per
   * node type, its two names and the fourteen characters of the format.
   */
  lemma {:induction false} RenderLengthNoNul(ts: seq<TreeType>)
    requires forall k :: 0 <= k < |ts| ==> NoNul(ts[k])
    ensures |Render(ts)| == |Banner| + NameLengths(ts)
  {
    RenderLength(ts);
    LineLengthsNoNul(ts);
  }

  lemma {:induction false} LineLengthsNoNul(ts: seq<TreeType>)
    requires forall k :: 0 <= k < |ts| ==> NoNul(ts[k])
    ensures LineLengths(ts) == NameLengths(ts)
  {
    if ts != [] {
      assert NoNul(ts[0]);
      LineLengthsNoNul(ts[1..]);
    }
  }

  /** The number of line breaks in `s`. */
  function LineBreaks(s: string): nat
  {
    multiset(s)['\n']
  }

  /** Neither name of a node type holds a line break. */
  predicate SingleLine(t: TreeType)
  {
    '\n' !in t.name && '\n' !in t.friendlyName
  }

  /** A node type whose names hold no line break is written as one line. */
  lemma LineHasOneNewline(t: TreeType)
    requires SingleLine(t)
    ensures LineBreaks(Line(t)) == 1
  {
    var n, m := CStr(t.name), CStr(t.friendlyName);
    AbsentFromPrefix('\n', n, t.name);
    AbsentFromPrefix('\n', m, t.friendlyName);
    FormatLineBreaks();
    LineBreaksJoin(LinePrefix + n + LineSeparator + m, LineSuffix);
    LineBreaksJoin(LinePrefix + n + LineSeparator, m);
    LineBreaksJoin(LinePrefix + n, LineSeparator);
    LineBreaksJoin(LinePrefix, n);
  }

  lemma FormatLineBreaks()
    ensures LineBreaks(LinePrefix) == 0 && LineBreaks(LineSeparator) == 0 && LineBreaks(LineSuffix) == 1
  {
  }

  lemma LineBreaksJoin(a: string, b: string)
    ensures LineBreaks(a + b) == LineBreaks(a) + LineBreaks(b)
  {
  }

  /**
   * When no name holds a line break, what follows the banner has exactly
   * one line break per node type.
   */
  lemma {:induction false} BodyLineCount(ts: seq<TreeType>)
    requires forall k :: 0 <= k < |ts| ==> SingleLine(ts[k])
    ensures LineBreaks(Body(ts)) == |ts|
  {
    if ts != [] {
      LineHasOneNewline(ts[0]);
      BodyLineCount(ts[1..]);
    }
  }
}
