/** HTML escaping of `& < > " '` as done by `escapeHTML` in both display
    classes and by `escapeHtml` in the extension's tree provider. The copies
    differ only in the apostrophe entity: `&#039;` in the display classes,
    `&#39;` in the tree provider. */
module HtmlEscape {
  import opened Text

  /** Which apostrophe entity a copy uses. */
  datatype ApostropheStyle = Padded | Unpadded

  function ApostropheEntity(style: ApostropheStyle): (e: string)
    ensures |e| >= 2 && e[0] == '&' && e[1] == '#'
  {
    match style
    case Padded => "&#039;"
    case Unpadded => "&#39;"
  }

  /** The five characters the regular expression `[&<>"']` matches. */
  predicate Special(c: char) {
    c == '&' || c == '<' || c == '>' || c == '"' || c == '\''
  }

  /** The replacement of one character. */
  function Entity(c: char, style: ApostropheStyle): string {
    if c == '&' then "&amp;"
    else if c == '<' then "&lt;"
    else if c == '>' then "&gt;"
    else if c == '"' then "&quot;"
    else if c == '\'' then ApostropheEntity(style)
    else [c]
  }

  /** One of the entities `Escape` emits starts at offset `i` of `s`. */
  predicate EntityAt(s: string, i: int, style: ApostropheStyle) {
    StartsAt(s, i, "&amp;") || StartsAt(s, i, "&lt;") || StartsAt(s, i, "&gt;") ||
    StartsAt(s, i, "&quot;") || StartsAt(s, i, ApostropheEntity(style))
  }

  /** `s.replace(/[&<>"']/g, ...)`: every special character replaced by its
      entity, every other character kept. The result holds no raw `< > " '`,
      every `&` in it begins an entity, and text without special characters
      is returned unchanged. */
  function Escape(s: string, style: ApostropheStyle): (r: string)
    ensures |r| >= |s|
    ensures forall i :: 0 <= i < |r| ==> r[i] != '<' && r[i] != '>' && r[i] != '"' && r[i] != '\''
    ensures forall i :: 0 <= i < |r| && r[i] == '&' ==> EntityAt(r, i, style)
    ensures (forall i :: 0 <= i < |s| ==> !Special(s[i])) ==> r == s
  {
    if s == [] then []
    else
      var rest := Escape(s[1..], style);
      EntityHead(s[0], rest, style);
      EntityAtConcat(s[0], rest, style);
      Entity(s[0], style) + rest
  }

  /** A replacement holds `&` only at its start, and there it begins an
      entity whatever follows. */
  lemma EntityHead(c: char, rest: string, style: ApostropheStyle)
    ensures forall i :: 0 <= i < |Entity(c, style)| ==>
      var x := Entity(c, style)[i];
      x != '<' && x != '>' && x != '"' && x != '\''
    ensures forall i :: 0 < i < |Entity(c, style)| ==> Entity(c, style)[i] != '&'
    ensures Entity(c, style)[0] == '&' ==> EntityAt(Entity(c, style) + rest, 0, style)
  {
    var e := Entity(c, style);
    assert (e + rest)[..|e|] == e;
  }

  /** An occurrence in `rest` is still an occurrence after `e` is
      prepended. */
  lemma StartsAtShift(e: string, rest: string, j: int, sub: string)
    requires StartsAt(rest, j, sub)
    ensures StartsAt(e + rest, |e| + j, sub)
  {
    assert (e + rest)[|e| + j..|e| + j + |sub|] == rest[j..j + |sub|];
  }

  /** Entities found in `rest` are still found after the replacement of
      `c` is prepended, and a replacement that is an entity is found at
      offset 0. */
  lemma EntityAtConcat(c: char, rest: string, style: ApostropheStyle)
    requires forall i :: 0 <= i < |rest| && rest[i] == '&' ==> EntityAt(rest, i, style)
    ensures var s := Entity(c, style) + rest;
      forall i :: 0 <= i < |s| && s[i] == '&' ==> EntityAt(s, i, style)
  {
    var e := Entity(c, style);
    var s := e + rest;
    EntityHead(c, rest, style);
    forall i | 0 <= i < |s| && s[i] == '&'
      ensures EntityAt(s, i, style)
    {
      if i >= |e| {
        var j := i - |e|;
        assert rest[j] == '&';
        var apos := ApostropheEntity(style);
        if StartsAt(rest, j, "&amp;") { StartsAtShift(e, rest, j, "&amp;"); }
        else if StartsAt(rest, j, "&lt;") { StartsAtShift(e, rest, j, "&lt;"); }
        else if StartsAt(rest, j, "&gt;") { StartsAtShift(e, rest, j, "&gt;"); }
        else if StartsAt(rest, j, "&quot;") { StartsAtShift(e, rest, j, "&quot;"); }
        else { StartsAtShift(e, rest, j, apos); }
      }
    }
  }

  /** `escapeHTML` of the display classes. */
  function EscapeHtml(s: string): string {
    Escape(s, Padded)
  }

  /** The inverse of `Escape`: each entity turned back into its character. */
  function Unescape(t: string, style: ApostropheStyle): string
    decreases |t|
  {
    var apos := ApostropheEntity(style);
    if t == [] then []
    else if "&amp;" <= t then "&" + Unescape(t[5..], style)
    else if "&lt;" <= t then "<" + Unescape(t[4..], style)
    else if "&gt;" <= t then ">" + Unescape(t[4..], style)
    else if "&quot;" <= t then "\"" + Unescape(t[6..], style)
    else if apos <= t then "'" + Unescape(t[|apos|..], style)
    else [t[0]] + Unescape(t[1..], style)
  }

  /** Un-escaping one replaced character gives back that character. */
  lemma UnescapeEntity(c: char, rest: string, style: ApostropheStyle)
    ensures Unescape(Entity(c, style) + rest, style) == [c] + Unescape(rest, style)
  {
    if !Special(c) {
      UnescapePlain(c, rest, style);
    } else if c == '\'' {
      UnescapeApostrophe(rest, style);
    } else {
      UnescapeNamed(c, rest, style);
    }
  }

  lemma UnescapePlain(c: char, rest: string, style: ApostropheStyle)
    requires !Special(c)
    ensures Unescape([c] + rest, style) == [c] + Unescape(rest, style)
  {
    var t := [c] + rest;
    assert t[0] == c && t[1..] == rest;
    assert !(ApostropheEntity(style) <= t);
  }

  lemma UnescapeApostrophe(rest: string, style: ApostropheStyle)
    ensures Unescape(ApostropheEntity(style) + rest, style) == "'" + Unescape(rest, style)
  {
    var apos := ApostropheEntity(style);
    var t := apos + rest;
    assert t[..|apos|] == apos && t[|apos|..] == rest;
    assert !("&amp;" <= t) && !("&lt;" <= t) && !("&gt;" <= t) && !("&quot;" <= t) by {
      assert t[1] == '#';
    }
  }

  lemma UnescapeNamed(c: char, rest: string, style: ApostropheStyle)
    requires c == '&' || c == '<' || c == '>' || c == '"'
    ensures Unescape(Entity(c, style) + rest, style) == [c] + Unescape(rest, style)
  {
    var e := Entity(c, style);
    var t := e + rest;
    assert t[..|e|] == e && t[|e|..] == rest;
    if c != '&' {
      assert t[1] == e[1] && e[1] != 'a';
    }
  }

  /** Un-escaping restores the input. */
  lemma {:induction false} UnescapeEscape(s: string, style: ApostropheStyle)
    ensures Unescape(Escape(s, style), style) == s
  {
    if s != [] {
      UnescapeEscape(s[1..], style);
      UnescapeEntity(s[0], Escape(s[1..], style), style);
      assert s == [s[0]] + s[1..];
    }
  }
}
