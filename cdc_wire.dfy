/**
 * The ASCII frame shared by the two class-based CDC codecs
 * (src/iqrf/transport/cdc_codec.py and iqrf/cdc/iqrf_codec.py): a
 * direction byte ('>' request, '<' response), an identifier of up to
 * three capital letters, an optional body "[parameter]:value" and a
 * carriage return.
 *
 * The frame pattern `(>|<)([A-Z]{0,3})(.*?)\r$` is stated as an explicit
 * function.  Two facts of Python's regular expressions shape it: `$` also
 * matches just before a final '\n', so a frame may end in "\r\n"; and `.`
 * does not match '\n', so the body never holds one.  The identifier is the
 * longest run of capitals (at most three) after the direction byte: giving
 * a capital back to the body never rescues a failed match, since the
 * match fails only for reasons in the body or the terminator.
 */
module CdcWire {
  import opened Bytes
  import opened Wrappers

  const REQUEST: byte := GT
  const RESPONSE: byte := LT
  const TERMINATOR: byte := CR
  const SEPARATOR: byte := COLON

  /** b"OK", b"BUSY", b"ERR": the status values of a response. */
  const OK_TOKEN: seq<byte> := [0x4F, 0x4B]
  const BUSY_TOKEN: seq<byte> := [0x42, 0x55, 0x53, 0x59]
  const ERROR_TOKEN: seq<byte> := [0x45, 0x52, 0x52]

  /** The groups of a successful match: direction, identifier and body. */
  datatype Match = Match(direction: byte, identifier: seq<byte>, body: seq<byte>)

  /** The parameter and value a body splits into (`None` for an absent one). */
  datatype Tokens = Tokens(parameter: Option<seq<byte>>, value: Option<seq<byte>>)

  /** `[A-Z]{0,3}` taken greedily at the front of `s`. */
  function IdentifierLength(s: seq<byte>): (n: nat)
    ensures n <= 3 && n <= |s|
    ensures forall i :: 0 <= i < n ==> IsUpper(s[i])
    ensures n < 3 && n < |s| ==> !IsUpper(s[n])
  {
    if |s| == 0 || !IsUpper(s[0]) then 0
    else if |s| == 1 || !IsUpper(s[1]) then 1
    else if |s| == 2 || !IsUpper(s[2]) then 2
    else 3
  }

  /**
   * Where `\r$` finds its carriage return: the last byte, or the byte
   * before a final '\n'.
   */
  function TerminatorIndex(b: seq<byte>): (t: Option<nat>)
    ensures t.Some? ==> t.value < |b| && b[t.value] == CR
    ensures t.Some? ==> t.value == |b| - 1 || (t.value == |b| - 2 && b[|b| - 1] == LF)
    ensures t.None? ==> (|b| == 0 || b[|b| - 1] != CR) && (|b| < 2 || b[|b| - 2] != CR || b[|b| - 1] != LF)
  {
    if |b| >= 1 && b[|b| - 1] == CR then Some(|b| - 1)
    else if |b| >= 2 && b[|b| - 2] == CR && b[|b| - 1] == LF then Some(|b| - 2)
    else None
  }

  /** `PATTERN.match(b)`, as its three groups. */
  function MatchFrame(b: seq<byte>): (r: Option<Match>)
    ensures r.Some? ==> r.value.direction in {REQUEST, RESPONSE} && LF !in r.value.body
  {
    if |b| == 0 || (b[0] != REQUEST && b[0] != RESPONSE) then None
    else
      match TerminatorIndex(b)
      case None => None
      case Some(t) =>
        var rest := b[1..t];
        var n := IdentifierLength(rest);
        if LF in rest[n..] then None else Some(Match(b[0], rest[..n], rest[n..]))
  }

  /**
   * `tokenize_cdc_message` after the match: an empty body has neither
   * parameter nor value; otherwise the body is cut at its first ':', a
   * leading ':' meaning "no parameter".  With no ':' at all, `find` gives
   * -1, so the parameter is the body without its last byte and the value
   * is the whole body.
   */
  function TokenizeBody(body: seq<byte>): (t: Tokens)
    ensures body == [] <==> t.value.None?
    ensures t.value.None? ==> t.parameter.None?
  {
    if |body| == 0 then Tokens(None, None)
    else
      var index := Find(body, SEPARATOR);
      var parameter := if index == 0 then None
                       else if index == -1 then Some(body[..|body| - 1])
                       else Some(body[..index]);
      var value := body[index + 1..];
      Tokens(parameter, Some(value))
  }

  /**
   * The body `encode` puts between identifier and terminator: nothing when
   * there is no value (a parameter is then dropped), ':' + value when there
   * is no parameter, parameter + ':' + value otherwise.
   */
  function BodyOf(t: Tokens): seq<byte> {
    match t.value
    case None => []
    case Some(v) =>
      match t.parameter
      case None => [SEPARATOR] + v
      case Some(p) => p + [SEPARATOR] + v
  }

  /** `b"".join([direction, identifier, ..., TERMINATOR])` in `encode`. */
  function Assemble(direction: byte, identifier: seq<byte>, t: Tokens): seq<byte> {
    [direction] + identifier + BodyOf(t) + [TERMINATOR]
  }

  /** An identifier the pattern can read back: up to three capitals. */
  predicate ValidIdentifier(identifier: seq<byte>) {
    |identifier| <= 3 && forall i :: 0 <= i < |identifier| ==> IsUpper(identifier[i])
  }

  /**
   * Tokens that survive `Assemble` followed by matching and tokenizing
   * behind `identifier`: no '\n' anywhere, a parameter only together with a
   * value, non-empty and free of ':', and not starting with a capital that
   * the identifier would absorb.
   */
  predicate Readable(identifier: seq<byte>, t: Tokens) {
    (t.value.None? ==> t.parameter.None?)
    && (t.value.Some? ==> LF !in t.value.value)
    && (t.parameter.Some? ==>
          var p := t.parameter.value;
          |p| >= 1 && SEPARATOR !in p && LF !in p && (|identifier| < 3 ==> !IsUpper(p[0])))
  }

  /** A frame the pattern accepts that ends in '\r' is direction, identifier, body and that terminator. */
  lemma MatchFrameShape(b: seq<byte>)
    requires MatchFrame(b).Some? && b[|b| - 1] == TERMINATOR
    ensures
      var m := MatchFrame(b).value;
      b == [m.direction] + m.identifier + m.body + [TERMINATOR]
  {
    var m := MatchFrame(b).value;
    assert TerminatorIndex(b) == Some(|b| - 1);
    var rest := b[1..|b| - 1];
    assert rest == m.identifier + m.body;
    assert b == [b[0]] + rest + [b[|b| - 1]];
  }

  /**
   * The pattern reads a frame back into its parts, unless its body holds a
   * '\n', which `.` does not match.
   */
  lemma MatchFrameOf(direction: byte, identifier: seq<byte>, body: seq<byte>)
    requires direction == REQUEST || direction == RESPONSE
    requires ValidIdentifier(identifier)
    requires |identifier| < 3 && |body| > 0 ==> !IsUpper(body[0])
    ensures MatchFrame([direction] + identifier + body + [TERMINATOR]) ==
      if LF in body then None else Some(Match(direction, identifier, body))
  {
    var b := [direction] + identifier + body + [TERMINATOR];
    var rest := b[1..|b| - 1];
    assert rest == identifier + body;
    assert forall i :: 0 <= i < |identifier| ==> rest[i] == identifier[i];
    if |identifier| < |rest| {
      assert rest[|identifier|] == body[0];
    }
    assert IdentifierLength(rest) == |identifier|;
    assert rest[..|identifier|] == identifier;
    assert rest[|identifier|..] == body;
  }

  /** Tokenizing the body `encode` produced gives the tokens back. */
  lemma TokenizeBodyOf(identifier: seq<byte>, t: Tokens)
    requires Readable(identifier, t)
    ensures TokenizeBody(BodyOf(t)) == t
  {
    if t.value.Some? {
      var v := t.value.value;
      if t.parameter.Some? {
        var p := t.parameter.value;
        FindAfterFree(p, SEPARATOR, v);
        assert (p + [SEPARATOR] + v)[..|p|] == p;
        assert (p + [SEPARATOR] + v)[|p| + 1..] == v;
      } else {
        assert ([SEPARATOR] + v)[1..] == v;
      }
    }
  }

  /**
   * A body without ':' is a parameter of all but its last byte and a value
   * of the whole body.
   */
  lemma TokenizeBodyWithoutSeparator(body: seq<byte>)
    requires |body| > 0 && SEPARATOR !in body
    ensures TokenizeBody(body) == Tokens(Some(body[..|body| - 1]), Some(body))
  {
    FindAbsent(body, SEPARATOR);
    assert body[0..] == body;
  }

  /** The body of an empty or ':'-holding body's tokens is that body again. */
  lemma BodyOfTokenize(body: seq<byte>)
    requires body == [] || SEPARATOR in body
    ensures BodyOf(TokenizeBody(body)) == body
  {
    if body != [] {
      var index := Find(body, SEPARATOR);
      assert body == body[..index] + [SEPARATOR] + body[index + 1..];
      if index == 0 {
        assert body == [SEPARATOR] + body[1..];
      }
    }
  }

  /** Reading a frame back: match and tokenizing recover what `Assemble` was given. */
  lemma MatchAssemble(direction: byte, identifier: seq<byte>, t: Tokens)
    requires direction == REQUEST || direction == RESPONSE
    requires ValidIdentifier(identifier) && Readable(identifier, t)
    ensures MatchFrame(Assemble(direction, identifier, t)) == Some(Match(direction, identifier, BodyOf(t)))
    ensures TokenizeBody(BodyOf(t)) == t
  {
    var body := BodyOf(t);
    if t.value.Some? {
      var v := t.value.value;
      if t.parameter.Some? {
        var p := t.parameter.value;
        assert body == p + ([SEPARATOR] + v);
        assert body[0] == p[0];
      } else {
        assert body == [SEPARATOR] + v;
      }
      assert LF !in body;
    }
    MatchFrameOf(direction, identifier, body);
    TokenizeBodyOf(identifier, t);
  }

  /**
   * The other way round: a frame that ends in a single '\r' and whose body
   * is empty or holds a ':' is exactly the assembly of its tokens.
   */
  lemma AssembleMatch(b: seq<byte>)
    requires MatchFrame(b).Some? && b[|b| - 1] == TERMINATOR
    requires var body := MatchFrame(b).value.body; body == [] || SEPARATOR in body
    ensures
      var m := MatchFrame(b).value;
      Assemble(m.direction, m.identifier, TokenizeBody(m.body)) == b
  {
    MatchFrameShape(b);
    BodyOfTokenize(MatchFrame(b).value.body);
  }

  /**
   * A frame ending "\r\n" matches too, and its assembly loses the '\n'; and
   * a body without ':' has its last byte cut off into the parameter, so it
   * is not reassembled either.  Both conditions of `AssembleMatch` are
   * needed.
   */
  lemma AssembleMatchNeedsConditions()
    ensures
      var b: seq<byte> := [REQUEST, 0x52, CR, LF];   // ">R\r\n"
      MatchFrame(b) == Some(Match(REQUEST, [0x52], []))
      && Assemble(REQUEST, [0x52], TokenizeBody([])) != b
    ensures
      var body: seq<byte> := [0x61, 0x62];            // "ab"
      TokenizeBody(body) == Tokens(Some([0x61]), Some(body))
      && BodyOf(TokenizeBody(body)) != body
  {
    var b: seq<byte> := [REQUEST, 0x52, CR, LF];
    assert TerminatorIndex(b) == Some(2);
    var rest := b[1..2];
    assert rest == [0x52];
    assert IdentifierLength(rest) == 1;
    assert rest[..1] == [0x52] && rest[1..] == [];
    assert LF !in rest[1..];
    var body: seq<byte> := [0x61, 0x62];
    assert SEPARATOR !in body;
    FindAbsent(body, SEPARATOR);
    assert body[..1] == [0x61] && body[0..] == body;
  }

  /*
   * The '#'-separated info value
   */

  /** `type + b"#" + version + b"#" + id`. */
  function JoinInfo(infoType: seq<byte>, version: seq<byte>, id: seq<byte>): seq<byte> {
    infoType + [HASH] + version + [HASH] + id
  }

  lemma JoinInfoIsJoin(infoType: seq<byte>, version: seq<byte>, id: seq<byte>)
    ensures JoinInfo(infoType, version, id) == Join([infoType, version, id], HASH)
  {
    assert [infoType, version, id][1..] == [version, id];
    assert [version, id][1..] == [id];
    assert Join([id], HASH) == id;
    assert Join([version, id], HASH) == version + [HASH] + id;
    assert Join([infoType, version, id], HASH) == infoType + [HASH] + (version + [HASH] + id);
  }

  /** `value.split(b"#")` of a joined info value gives the three fields back. */
  lemma SplitJoinInfo(infoType: seq<byte>, version: seq<byte>, id: seq<byte>)
    requires HASH !in infoType && HASH !in version && HASH !in id
    ensures Split(JoinInfo(infoType, version, id), HASH) == [infoType, version, id]
  {
    JoinInfoIsJoin(infoType, version, id);
    SplitJoin([infoType, version, id], HASH);
  }

  lemma JoinInfoFree(infoType: seq<byte>, version: seq<byte>, id: seq<byte>, b: byte)
    requires b != HASH && b !in infoType && b !in version && b !in id
    ensures b !in JoinInfo(infoType, version, id)
  {
  }
}
