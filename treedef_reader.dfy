/**
 * A reader for tree.def files, used as the inverse of the emitter: it
 * recovers the list of node types from the text the emitter writes.
 *
 * Because the emitter escapes nothing and stops each name at its first NUL
 * character, different lists can produce the same file.  When no name holds
 * a NUL character or a line break and no bare name holds a comma, reading
 * gives back exactly the written list (RenderRoundTrip); outside those
 * bounds lists can collide, and the collision lemmas at the end exhibit
 * such pairs.
 */
module TreeDefReader {
  import opened SeqFacts
  import opened GenTypes

  datatype Option<T> = None | Some(value: T)

  /** The text of the line written for `t` when no name holds a NUL. */
  function LineText(t: TreeType): string
  {
    LinePrefix + t.name + LineSeparator + t.friendlyName + LineClose
  }

  /**
   * Reads the text of one line (without its line break): the name runs up
   * to the first comma, the friendly name from after `, "` to the closing
   * `")`.
   */
  function ParseLine(l: string): (r: Option<TreeType>)
    ensures r.Some? ==> ',' !in r.value.name && l == LineText(r.value)
  {
    if |l| < |LinePrefix| + |LineClose| || l[..|LinePrefix|] != LinePrefix || l[|l| - |LineClose|..] != LineClose then
      None
    else
      var inner := l[|LinePrefix|..|l| - |LineClose|];
      var k := FirstIndex(inner, ',');
      if LineSeparator <= inner[k..] then
        var name, friendly := inner[..k], inner[k + |LineSeparator|..];
        Unframe(l, LinePrefix, LineClose, LineSeparator, k);
        Some(TreeType(name, friendly))
      else
        None
  }

  /** Reads the lines that follow the banner, one node type per line. */
  function DecodeBody(s: string): Option<seq<TreeType>>
    decreases |s|
  {
    if s == [] then Some([])
    else
      var j := FirstIndex(s, '\n');
      if j == |s| then None
      else
        match ParseLine(s[..j])
        case None => None
        case Some(t) =>
          match DecodeBody(s[j + 1..])
          case None => None
          case Some(ts) => Some([t] + ts)
  }

  /** Reads a whole tree.def file: the banner, then the lines. */
  function Decode(file: string): Option<seq<TreeType>>
  {
    if Banner <= file then DecodeBody(file[|Banner|..]) else None
  }

  /** A node type whose line can be read back unambiguously. */
  predicate Recoverable(t: TreeType)
  {
    NoNul(t) && SingleLine(t) && ',' !in t.name
  }

  /** The line text of a recoverable node type reads back as that node type. */
  lemma ParseLineOf(t: TreeType)
    requires Recoverable(t)
    ensures ParseLine(LineText(t)) == Some(t)
  {
    var inner := t.name + LineSeparator + t.friendlyName;
    Regroup(LinePrefix, t.name, LineSeparator, t.friendlyName, LineClose);
    Framed(LinePrefix, inner, LineClose);
    Associate(t.name, LineSeparator, t.friendlyName);
    FirstIndexAt(t.name, LineSeparator + t.friendlyName, ',');
    Parts(t.name, LineSeparator, t.friendlyName);
  }

  /**
   * The line of a recoverable node type is its line text and one line
   * break, and the text holds no other.
   */
  lemma LineSplit(t: TreeType)
    requires Recoverable(t)
    ensures Line(t) == LineText(t) + "\n"
    ensures '\n' !in LineText(t)
  {
    LineVerbatim(t);
  }

  /** The body written for recoverable node types reads back as them. */
  lemma {:induction false} DecodeBodyOf(ts: seq<TreeType>)
    requires forall k :: 0 <= k < |ts| ==> Recoverable(ts[k])
    ensures DecodeBody(Body(ts)) == Some(ts)
  {
    if ts != [] {
      var t, s, text := ts[0], Body(ts), LineText(ts[0]);
      assert Recoverable(t);
      LineSplit(t);
      Associate(text, "\n", Body(ts[1..]));
      FirstIndexAt(text, "\n" + Body(ts[1..]), '\n');
      AroundElement(s, text, '\n', Body(ts[1..]));
      ParseLineOf(t);
      DecodeBodyOf(ts[1..]);
      ConsTail(ts);
    }
  }

  /**
   * Reading the file written for recoverable node types gives back the
   * same list, in the same order, with nothing skipped or repeated.
   */
  lemma RenderRoundTrip(ts: seq<TreeType>)
    requires forall k :: 0 <= k < |ts| ==> Recoverable(ts[k])
    ensures Decode(Render(ts)) == Some(ts)
  {
    RenderStartsWithBanner(ts);
    DecodeBodyOf(ts);
  }

  /** Two lists of recoverable node types never produce the same file. */
  lemma RenderInjective(a: seq<TreeType>, b: seq<TreeType>)
    requires forall k :: 0 <= k < |a| ==> Recoverable(a[k])
    requires forall k :: 0 <= k < |b| ==> Recoverable(b[k])
    requires Render(a) == Render(b)
    ensures a == b
  {
    RenderRoundTrip(a);
    RenderRoundTrip(b);
  }

  // ---------------------------------------------------------------------
  // What the emitter loses outside those bounds

  /**
   * A name holding `, "` is written without escaping, so a node type whose
   * name ends in `, "` and some text writes the same line as one whose
   * friendly name starts with that text and `, "`.
   */
  lemma UnescapedNameCollision(x: string, y: string, z: string)
    requires '\0' !in x && '\0' !in y && '\0' !in z
    ensures Render([TreeType(x + LineSeparator + y, z)]) == Render([TreeType(x, y + LineSeparator + z)])
  {
    var t, u := TreeType(x + LineSeparator + y, z), TreeType(x, y + LineSeparator + z);
    NoNulJoin(x, LineSeparator);
    NoNulJoin(x + LineSeparator, y);
    NoNulJoin(y, LineSeparator);
    NoNulJoin(y + LineSeparator, z);
    LineVerbatim(t);
    LineVerbatim(u);
    ShiftAcross(LinePrefix, x, LineSeparator, y, z, LineSuffix);
    RenderOfSameLines([t], [u]);
  }

  /**
   * A friendly name holding `")`, a line break and the start of another
   * line is written without escaping, so one node type passes for two.
   */
  lemma UnescapedLineBreakCollision(n1: string, f1: string, n2: string, f2: string)
    requires NoNul(TreeType(n1, f1)) && NoNul(TreeType(n2, f2))
    ensures Render([TreeType(n1, f1 + LineSuffix + (LinePrefix + n2 + LineSeparator + f2))])
         == Render([TreeType(n1, f1), TreeType(n2, f2)])
  {
    var second := LinePrefix + n2 + LineSeparator + f2;
    var t, u, v := TreeType(n1, f1 + LineSuffix + second), TreeType(n1, f1), TreeType(n2, f2);
    NoNulJoin(LinePrefix, n2);
    NoNulJoin(LinePrefix + n2, LineSeparator);
    NoNulJoin(LinePrefix + n2 + LineSeparator, f2);
    NoNulJoin(f1, LineSuffix);
    NoNulJoin(f1 + LineSuffix, second);
    LineVerbatim(t);
    LineVerbatim(u);
    LineVerbatim(v);
    SplitAfter(LinePrefix + n1 + LineSeparator, f1, LineSuffix, second);
    BodySingleton(t);
    BodySingleton(u);
    BodyPush([u], v);
    assert [u] + [v] == [u, v];
  }

  lemma NoNulJoin(a: string, b: string)
    requires '\0' !in a && '\0' !in b
    ensures '\0' !in a + b
  {
  }

  /** A name is cut at its first NUL character, so what follows it is lost. */
  lemma NulCollision(n: string, rest: string, f: string)
    requires '\0' !in n && '\0' !in f
    ensures Render([TreeType(n + "\0" + rest, f)]) == Render([TreeType(n, f)])
  {
    var t, u := TreeType(n + "\0" + rest, f), TreeType(n, f);
    CStrUpToNul(n, rest);
    LineTruncatesAtNul(t);
    RenderOfSameLines([t], [u]);
  }
}
