/** The self-contained logic of the Apache module's service-token code: the
    growable string buffer that collects response bodies and element text,
    the walk over the parsed response from the WebKDC that accepts or
    refuses it, and the rule that decides when the token held in memory can
    be handed out again. */
module ServiceToken {
  import opened Errors
  import Mem

  /** The terminator of a C string. */
  const NUL: char := '\0'

  /** The step by which a string buffer grows. */
  const CHUNK_SIZE: nat := 4096

  /** A memory pool, known to this model only by its identity. */
  datatype Pool = Pool(id: nat)

  /** strlen: the number of characters before the first terminator (all of
      them when there is none). */
  function Strlen(s: string): (n: nat)
    ensures n <= |s|
    ensures forall i :: 0 <= i < n ==> s[i] != NUL
    ensures n < |s| ==> s[n] == NUL
  {
    if |s| == 0 || s[0] == NUL then 0 else 1 + Strlen(s[1..])
  }

  /** The characters append_string takes from `inData`: `inSize` of them,
      or, when `inSize` is 0, the C string `inData`. */
  function Taken(inData: string, inSize: nat): string
    requires inSize <= |inData|
  {
    if inSize == 0 then inData[..Strlen(inData)] else inData[..inSize]
  }

  /** Whether append_string has to allocate a new buffer for `needed`
      characters: always when there is none, and whenever the characters
      and their terminator would not fit. */
  predicate NeedsGrowth(noData: bool, needed: nat, capacity: nat)
    ensures !NeedsGrowth(noData, needed, capacity) <==> !noData && needed + 1 <= capacity
  {
    noData || needed >= capacity
  }

  /** The growth test as service_token.c:237 writes it. */
  predicate NeedsGrowthAsWritten(noData: bool, needed: nat, capacity: nat)
    ensures NeedsGrowthAsWritten(noData, needed, capacity) ==> NeedsGrowth(noData, needed, capacity)
    ensures !noData && needed == capacity ==> !NeedsGrowthAsWritten(noData, needed, capacity)
  {
    noData || needed > capacity
  }

  /** The capacity the growth loop reaches from `capacity`: whole chunks
      are added until `needed` characters and the terminator fit. */
  function GrownCapacity(capacity: nat, needed: nat): (c: nat)
    ensures c >= capacity && c >= needed + 1
    ensures (c - capacity) % CHUNK_SIZE == 0
    ensures c > capacity ==> c - CHUNK_SIZE < needed + 1
    decreases needed + 1 - capacity
  {
    if capacity >= needed + 1 then capacity else GrownCapacity(capacity + CHUNK_SIZE, needed)
  }

  /** MWA_STRING: a terminated character buffer of `capacity` characters
      whose first `size` are the text. */
  class MwaString {
    var data: array?<char>
    var size: nat
    var capacity: nat
    var pool: Pool

    /** No buffer means the empty string with no room; otherwise the buffer
        is `capacity` long and the text is followed by its terminator. */
    ghost predicate Valid()
      reads this, data
    {
      (data == null ==> size == 0 && capacity == 0)
      && (data != null ==> data.Length == capacity && size < capacity && data[size] == NUL)
    }

    /** The text held. */
    function Contents(): (s: string)
      requires Valid()
      reads this, data
      ensures |s| == size
    {
      if data == null then [] else data[..size]
    }

    /** init_string: no buffer, nothing held, no room, and the pool recorded. */
    constructor (pool: Pool)
      ensures Valid() && data == null && size == 0 && capacity == 0 && this.pool == pool
      ensures Contents() == []
    {
      data := null;
      size := 0;
      capacity := 0;
      this.pool := pool;
    }

    /** append_string, with the growth test corrected to leave room for the
        terminator: the text grows by the characters taken from `inData`,
        the buffer is replaced by a larger fresh one exactly when
        NeedsGrowth says so, and the terminator follows the text. */
    method Append(inData: string, inSize: nat)
      requires Valid() && inSize <= |inData|
      modifies this, data
      ensures Valid() && pool == old(pool)
      ensures Contents() == old(Contents()) + Taken(inData, inSize)
      ensures size == old(size) + |Taken(inData, inSize)|
      ensures if NeedsGrowth(old(data) == null, size, old(capacity))
              then capacity == GrownCapacity(old(capacity), size) && fresh(data)
              else capacity == old(capacity) && data == old(data)
    {
      var n := if inSize == 0 then Strlen(inData) else inSize;
      var inText := inData[..n];
      assert inText == Taken(inData, inSize);
      var needed := size + n;
      ghost var text := Contents();
      if data == null || needed >= capacity {
        var grown, cap := Reallocate(data, size, capacity, needed);
        data := grown;
        capacity := cap;
      }
      assert forall i :: 0 <= i < size ==> data[i] == text[i];
      PutText(data, size, text, inText);
      size := needed;
    }
  }

  /** The tail of append_string: the new characters go right after the
      `text` held, and the terminator after them. */
  method PutText(a: array<char>, size: nat, ghost text: string, inText: string)
    requires |text| == size && size + |inText| < a.Length
    requires forall i :: 0 <= i < |text| ==> a[i] == text[i]
    modifies a
    ensures a[..|text| + |inText|] == text + inText && a[|text| + |inText|] == NUL
  {
    Mem.Copy(a, size, inText);
    a[size + |inText|] := NUL;
    Mem.Front(a[..], text, inText);
  }

  /** The growth branch of append_string: the capacity grows chunk by
      chunk until `needed` characters and the terminator fit, and a fresh
      buffer of that capacity receives the `size` characters held. */
  method Reallocate(data: array?<char>, size: nat, capacity: nat, needed: nat) returns (grown: array<char>, cap: nat)
    requires data == null ==> size == 0
    requires data != null ==> size <= data.Length
    requires size <= needed
    ensures fresh(grown) && cap == GrownCapacity(capacity, needed) && grown.Length == cap
    ensures data != null ==> forall i :: 0 <= i < size ==> grown[i] == data[i]
  {
    cap := capacity;
    while cap < needed + 1
      invariant cap >= capacity
      invariant GrownCapacity(cap, needed) == GrownCapacity(capacity, needed)
      decreases needed + 1 - cap
    {
      cap := cap + CHUNK_SIZE;
    }
    grown := new char[cap];
    if data != null {
      Mem.Copy(grown, 0, data[..size]);
    }
  }

  /** append_string as written, up to its terminator store: for `n` new
      characters after `size` held in a buffer of `capacity` (or in none),
      the index the terminator is written to and the capacity of the buffer
      it is written into. */
  function TerminatorStoreAsWritten(noData: bool, size: nat, capacity: nat, n: nat): (store: (nat, nat))
    ensures store.0 == size + n && store.1 >= capacity
    ensures store.1 > capacity || noData ==> store.0 < store.1
  {
    var needed := size + n;
    (needed, if NeedsGrowthAsWritten(noData, needed, capacity) then GrownCapacity(capacity, needed) else capacity)
  }

  /** As written, the terminator lands outside the buffer exactly when a
      buffer is held and the new text fills it to the last character. */
  lemma TerminatorOutsideAsWritten(noData: bool, size: nat, capacity: nat, n: nat)
    ensures var (index, cap) := TerminatorStoreAsWritten(noData, size, capacity, n);
            index >= cap <==> !noData && size + n == capacity
  {
  }

  /** The witness: with 4095 characters held in a 4096-character buffer,
      appending one more stores the terminator at index 4096 of a buffer
      still 4096 long, where the corrected test grows the buffer. */
  lemma TerminatorOverflowAsWritten()
    ensures TerminatorStoreAsWritten(false, 4095, 4096, 1) == (4096, 4096)
    ensures NeedsGrowth(false, 4095 + 1, 4096)
  {
  }

  /** The corrected test grows exactly when the terminator would not fit,
      and the two tests differ only when the text exactly fills the buffer. */
  lemma GrowthTests(noData: bool, needed: nat, capacity: nat)
    ensures !NeedsGrowth(noData, needed, capacity) ==> needed + 1 <= capacity
    ensures NeedsGrowth(noData, needed, capacity) != NeedsGrowthAsWritten(noData, needed, capacity)
            <==> !noData && needed == capacity
  {
  }

  /** post_gather: curl's write callback appends `size * nmemb` characters
      (a product of 0 makes append_string take the C string instead) and
      reports that it consumed them. */
  method PostGather(inData: string, size: nat, nmemb: nat, s: MwaString) returns (realSize: nat)
    requires s.Valid() && size * nmemb <= |inData|
    modifies s, s.data
    ensures realSize == size * nmemb
    ensures s.Valid() && s.Contents() == old(s.Contents()) + Taken(inData, realSize)
  {
    realSize := size * nmemb;
    s.Append(inData, realSize);
  }

  /** An element of the parsed XML response: its name, the pieces of its
      character data (each with or without text), and its child elements. */
  datatype Elem = Elem(name: string, cdata: seq<Option<string>>, children: seq<Elem>)

  /** Whether get_elem_text finds text: the first piece of character data
      exists and has text. */
  predicate HasText(e: Elem)
  {
    |e.cdata| > 0 && e.cdata[0].Some?
  }

  /** What get_elem_text demands of an element: once its first piece has
      text, every piece has (strlen is applied to each). */
  predicate PiecesPresent(e: Elem)
  {
    HasText(e) ==> AllSome(e.cdata)
  }

  /** Whether every piece has text. */
  predicate AllSome(pieces: seq<Option<string>>)
  {
    forall i :: 0 <= i < |pieces| ==> pieces[i].Some?
  }

  /** The text of pieces of character data, one C string after another. */
  function JoinText(pieces: seq<Option<string>>): (s: string)
    requires AllSome(pieces)
  {
    if |pieces| == 0 then []
    else JoinText(pieces[..|pieces| - 1]) + Taken(pieces[|pieces| - 1].value, 0)
  }

  /** Joining text works piece by piece, and the joined text is a C string:
      it holds no terminator. */
  lemma {:induction false} JoinTextAppend(a: seq<Option<string>>, b: seq<Option<string>>)
    requires AllSome(a) && AllSome(b)
    ensures AllSome(a + b) && JoinText(a + b) == JoinText(a) + JoinText(b)
    decreases |b|
  {
    AllSomeAppend(a, b);
    if |b| == 0 {
      assert a + b == a;
    } else {
      var b' := b[..|b| - 1];
      var last := Taken(b[|b| - 1].value, 0);
      assert AllSome(b');
      JoinTextAppend(a, b');
      DropLast(a, b);
      assert JoinText(a + b) == JoinText(a + b') + last;
      assert JoinText(b) == JoinText(b') + last;
      assert JoinText(a) + JoinText(b') + last == JoinText(a) + (JoinText(b') + last);
    }
  }

  lemma AllSomeAppend(a: seq<Option<string>>, b: seq<Option<string>>)
    requires AllSome(a) && AllSome(b)
    ensures AllSome(a + b)
  {
    var ab := a + b;
    forall i | 0 <= i < |ab| ensures ab[i].Some? {
      if i < |a| { assert ab[i] == a[i]; } else { assert ab[i] == b[i - |a|]; }
    }
  }

  lemma DropLast<T>(a: seq<T>, b: seq<T>)
    requires |b| > 0
    ensures (a + b)[..|a + b| - 1] == a + b[..|b| - 1] && (a + b)[|a + b| - 1] == b[|b| - 1]
  {
  }

  /** The joined text holds no terminator, so the C string get_elem_text
      returns is all of it. */
  lemma {:induction false} JoinTextHasNoTerminator(pieces: seq<Option<string>>)
    requires AllSome(pieces)
    ensures forall k :: 0 <= k < |JoinText(pieces)| ==> JoinText(pieces)[k] != NUL
    decreases |pieces|
  {
    if |pieces| > 0 {
      JoinTextHasNoTerminator(pieces[..|pieces| - 1]);
    }
  }

  /** What get_elem_text returns: the joined text of all pieces when the
      first has text, `def` otherwise. */
  function ElemText(e: Elem, def: Option<string>): (r: Option<string>)
    requires PiecesPresent(e)
    ensures !HasText(e) ==> r == def
    ensures HasText(e) ==> r.Some? && Taken(e.cdata[0].value, 0) <= r.value
    ensures HasText(e) ==> forall k :: 0 <= k < |r.value| ==> r.value[k] != NUL
  {
    if HasText(e) then
      assert e.cdata == e.cdata[..1] + e.cdata[1..];
      assert AllSome(e.cdata[..1]) && AllSome(e.cdata[1..]);
      assert e.cdata[..1][..0] == [];
      JoinTextAppend(e.cdata[..1], e.cdata[1..]);
      JoinTextHasNoTerminator(e.cdata);
      Some(JoinText(e.cdata))
    else def
  }

  /** get_elem_text: collects the pieces into a fresh string buffer. */
  method GetElemText(e: Elem, def: Option<string>, pool: Pool) returns (r: Option<string>)
    requires PiecesPresent(e)
    ensures r == ElemText(e, def)
  {
    if !HasText(e) { return def; }
    var s := new MwaString(pool);
    var i := 0;
    while i < |e.cdata|
      invariant 0 <= i <= |e.cdata|
      invariant s.Valid() && s.Contents() == JoinText(e.cdata[..i])
      invariant i > 0 ==> s.data != null
      invariant fresh(s) && (s.data != null ==> fresh(s.data))
    {
      var piece := e.cdata[i].value;
      s.Append(piece, 0);
      assert e.cdata[..i + 1][..i] == e.cdata[..i];
      i := i + 1;
    }
    assert e.cdata[..i] == e.cdata;
    r := Some(s.Contents());
  }

  /** The element names parse_service_token_response looks for. */
  const ERROR_RESPONSE: string := "errorResponse"
  const GET_TOKENS_RESPONSE: string := "getTokensResponse"
  const TOKENS: string := "tokens"
  const TOKEN: string := "token"
  const SESSION_KEY: string := "sessionKey"
  const EXPIRES: string := "expires"
  const TOKEN_DATA: string := "tokenData"

  /** What get_elem_text demands of the children named `name`, the only
      ones the loop over the children of <token> hands to it for that name:
      each has all its pieces. Children of other names are never read. */
  predicate NamedPiecesPresent(cs: seq<Elem>, name: string)
  {
    forall i :: 0 <= i < |cs| && cs[i].name == name ==> PiecesPresent(cs[i])
  }

  /** The same for the three names the loop looks for. */
  predicate FieldPiecesPresent(cs: seq<Elem>)
  {
    NamedPiecesPresent(cs, SESSION_KEY) && NamedPiecesPresent(cs, EXPIRES) && NamedPiecesPresent(cs, TOKEN_DATA)
  }

  /** The value the loop over the children of <token> leaves for `name`:
      the text of the last child so named (even when that child has none),
      or none when no child is so named. */
  function Field(cs: seq<Elem>, name: string): (r: Option<string>)
    requires NamedPiecesPresent(cs, name)
    ensures (forall i :: 0 <= i < |cs| ==> cs[i].name != name) ==> r.None?
  {
    if |cs| == 0 then None
    else if cs[|cs| - 1].name == name then ElemText(cs[|cs| - 1], None)
    else
      NamedPrefix(cs, name, |cs| - 1);
      Field(cs[..|cs| - 1], name)
  }

  /** What holds of all children named `name` holds of those in a prefix. */
  lemma NamedPrefix(cs: seq<Elem>, name: string, n: nat)
    requires NamedPiecesPresent(cs, name) && n <= |cs|
    ensures NamedPiecesPresent(cs[..n], name)
  {
    var p := cs[..n];
    forall i | 0 <= i < |p| && p[i].name == name ensures PiecesPresent(p[i]) {
      assert p[i] == cs[i];
    }
  }

  /** A child with another name changes no field, wherever it stands. */
  lemma {:induction false} OtherChildIgnored(a: seq<Elem>, c: Elem, b: seq<Elem>, name: string)
    requires NamedPiecesPresent(a + [c] + b, name) && c.name != name
    ensures NamedPiecesPresent(a + b, name)
    ensures Field(a + [c] + b, name) == Field(a + b, name)
    decreases |b|
  {
    var l, r := a + [c] + b, a + b;
    NamedWithout(a, c, b, name);
    if |b| == 0 {
      assert l[..|l| - 1] == a && r == a;
    } else {
      var b' := b[..|b| - 1];
      assert l[..|l| - 1] == a + [c] + b' && r[..|r| - 1] == a + b';
      NamedPrefix(l, name, |l| - 1);
      OtherChildIgnored(a, c, b', name);
    }
  }

  /** What holds of all children named `name` holds when one child is taken out. */
  lemma NamedWithout(a: seq<Elem>, c: Elem, b: seq<Elem>, name: string)
    requires NamedPiecesPresent(a + [c] + b, name)
    ensures NamedPiecesPresent(a + b, name)
  {
    var l, r := a + [c] + b, a + b;
    forall i | 0 <= i < |r| && r[i].name == name ensures PiecesPresent(r[i]) {
      if i < |a| { assert r[i] == l[i]; } else { assert r[i] == l[i + 1]; }
    }
  }

  /** A later child of the same name overwrites an earlier one: the field
      is the text of the last child so named. */
  lemma {:induction false} LastChildWins(a: seq<Elem>, c: Elem, b: seq<Elem>, name: string)
    requires NamedPiecesPresent(a + [c] + b, name) && c.name == name
    requires forall i :: 0 <= i < |b| ==> b[i].name != name
    ensures PiecesPresent(c) && Field(a + [c] + b, name) == ElemText(c, None)
    decreases |b|
  {
    var l := a + [c] + b;
    assert l[|a|] == c;
    if |b| == 0 {
      assert l[|l| - 1] == c;
    } else {
      var b' := b[..|b| - 1];
      assert l[..|l| - 1] == a + [c] + b';
      assert l[|l| - 1] == b[|b| - 1];
      NamedPrefix(l, name, |l| - 1);
      LastChildWins(a, c, b', name);
    }
  }

  /** A field found names a child so named whose text it is. */
  lemma {:induction false} FieldFound(cs: seq<Elem>, name: string)
    requires NamedPiecesPresent(cs, name) && Field(cs, name).Some?
    ensures exists i :: 0 <= i < |cs| && cs[i].name == name && ElemText(cs[i], None) == Field(cs, name)
    decreases |cs|
  {
    if cs[|cs| - 1].name != name {
      var p := cs[..|cs| - 1];
      NamedPrefix(cs, name, |cs| - 1);
      FieldFound(p, name);
      var i :| 0 <= i < |p| && p[i].name == name && ElemText(p[i], None) == Field(p, name);
      assert cs[i] == p[i];
    }
  }

  /** The three texts a <token> must carry. */
  datatype TokenTexts = TokenTexts(sessionKey: string, expires: string, tokenData: string)

  /** The response shape parse_service_token_response accepts. */
  predicate ResponseShape(root: Elem)
  {
    root.name == GET_TOKENS_RESPONSE
    && |root.children| > 0 && root.children[0].name == TOKENS
    && |root.children[0].children| > 0 && root.children[0].children[0].name == TOKEN
  }

  /** The <token> of a well-shaped response. */
  function TokenElem(root: Elem): Elem
    requires ResponseShape(root)
  {
    root.children[0].children[0]
  }

  /** What parse_service_token_response extracts: nothing unless the root
      is <getTokensResponse> whose first child is <tokens> whose first child
      is <token>, and that <token> yields all of sessionKey, expires and
      tokenData. */
  function Response(root: Elem): (r: Option<TokenTexts>)
    requires ResponseShape(root) ==> FieldPiecesPresent(TokenElem(root).children)
    ensures !ResponseShape(root) ==> r.None?
    ensures r.Some? ==> (ResponseShape(root)
      && Field(TokenElem(root).children, SESSION_KEY) == Some(r.value.sessionKey)
      && Field(TokenElem(root).children, EXPIRES) == Some(r.value.expires)
      && Field(TokenElem(root).children, TOKEN_DATA) == Some(r.value.tokenData))
  {
    if !ResponseShape(root) then None
    else
      var cs := TokenElem(root).children;
      match (Field(cs, SESSION_KEY), Field(cs, EXPIRES), Field(cs, TOKEN_DATA))
      case (Some(k), Some(e), Some(d)) => Some(TokenTexts(k, e, d))
      case _ => None
  }

  /** An accepted response has the three-level shape, and a child of
      <token> of each required name whose text is the value taken. */
  lemma ResponseAccepted(root: Elem)
    requires ResponseShape(root) ==> FieldPiecesPresent(TokenElem(root).children)
    requires Response(root).Some?
    ensures ResponseShape(root)
    ensures var cs := TokenElem(root).children; var t := Response(root).value;
            (exists i :: 0 <= i < |cs| && cs[i].name == SESSION_KEY && ElemText(cs[i], None) == Some(t.sessionKey))
            && (exists i :: 0 <= i < |cs| && cs[i].name == EXPIRES && ElemText(cs[i], None) == Some(t.expires))
            && (exists i :: 0 <= i < |cs| && cs[i].name == TOKEN_DATA && ElemText(cs[i], None) == Some(t.tokenData))
  {
    var cs := TokenElem(root).children;
    FieldFound(cs, SESSION_KEY);
    FieldFound(cs, EXPIRES);
    FieldFound(cs, TOKEN_DATA);
  }

  /** An error response, or any root other than <getTokensResponse>, is
      refused. */
  lemma RefusedRoot(root: Elem)
    requires root.name != GET_TOKENS_RESPONSE
    ensures Response(root) == None
  {
  }

  /** parse_service_token_response, up to the decoding of the texts: walks
      root, <tokens> and <token>, then the children of <token>. */
  method ParseServiceTokenResponse(root: Elem, pool: Pool) returns (r: Option<TokenTexts>)
    requires ResponseShape(root) ==> FieldPiecesPresent(TokenElem(root).children)
    ensures r == Response(root)
  {
    if root.name == ERROR_RESPONSE { return None; }
    if root.name != GET_TOKENS_RESPONSE { return None; }
    if |root.children| == 0 || root.children[0].name != TOKENS { return None; }
    var tokens := root.children[0];
    if |tokens.children| == 0 || tokens.children[0].name != TOKEN { return None; }
    var cs := tokens.children[0].children;
    var sessionKey, expires, tokenData := None, None, None;
    var i := 0;
    while i < |cs|
      invariant 0 <= i <= |cs|
      invariant FieldPiecesPresent(cs[..i])
      invariant sessionKey == Field(cs[..i], SESSION_KEY)
      invariant expires == Field(cs[..i], EXPIRES)
      invariant tokenData == Field(cs[..i], TOKEN_DATA)
    {
      var sib := cs[i];
      NamedPrefix(cs, SESSION_KEY, i + 1);
      NamedPrefix(cs, EXPIRES, i + 1);
      NamedPrefix(cs, TOKEN_DATA, i + 1);
      assert cs[..i + 1][..i] == cs[..i] && cs[..i + 1][i] == sib;
      if sib.name == SESSION_KEY {
        sessionKey := GetElemText(sib, None, pool);
      } else if sib.name == EXPIRES {
        expires := GetElemText(sib, None, pool);
      } else if sib.name == TOKEN_DATA {
        tokenData := GetElemText(sib, None, pool);
      }
      i := i + 1;
    }
    assert cs[..i] == cs;
    if sessionKey.None? || expires.None? || tokenData.None? { return None; }
    r := Some(TokenTexts(sessionKey.value, expires.value, tokenData.value));
  }

  /** A service token, as far as the reuse rule sees it. */
  datatype Token = Token(sessionKey: seq<byte>, tokenData: string, expires: int)

  /** Whether a token held in memory is handed out again at time `now`:
      only while it expires more than an hour later. */
  predicate StillFresh(t: Token, now: int)
    ensures StillFresh(t, now) <==> now + 3600 < t.expires
    ensures StillFresh(t, now) ==> t.expires > now
  {
    t.expires - 3600 > now
  }

  /** Where mwa_get_service_token takes its answer from. */
  datatype Source = Memory | Cache | Request | Failed

  /** mwa_get_service_token's choice: the token in memory while it is still
      fresh, else the cached token, else the requested one. `cached` and
      `requested` are the outcomes of reading the cache file and of asking
      the WebKDC. */
  function Choice(current: Option<Token>, now: int, cached: Option<Token>, requested: Option<Token>)
    : (c: (Source, Option<Token>))
    ensures var live := current.Some? && StillFresh(current.value, now);
            (c.0 == Memory <==> live)
            && (c.0 == Cache <==> !live && cached.Some?)
            && (c.0 == Request <==> !live && cached.None? && requested.Some?)
            && (c.0 == Failed <==> !live && cached.None? && requested.None?)
    ensures c.0 == Memory ==> c.1 == current
    ensures c.0 == Cache ==> c.1 == cached
    ensures c.0 == Request ==> c.1 == requested
    ensures c.0 == Failed <==> c.1.None?
  {
    if current.Some? && StillFresh(current.value, now) then (Memory, current)
    else if cached.Some? then (Cache, cached)
    else if requested.Some? then (Request, requested)
    else (Failed, None)
  }

  /** A fresh token in memory is returned without looking at the cache or
      the WebKDC: whatever they would give does not matter. */
  lemma FreshTokenNeedsNoIo(current: Option<Token>, now: int, c1: Option<Token>, r1: Option<Token>,
                            c2: Option<Token>, r2: Option<Token>)
    requires current.Some? && StillFresh(current.value, now)
    ensures Choice(current, now, c1, r1) == Choice(current, now, c2, r2) == (Memory, current)
  {
  }

  /** The process-wide holder of the current service token. */
  class TokenHolder {
    var current: Option<Token>

    constructor ()
      ensures current == None
    {
      current := None;
    }

    /** mwa_get_service_token: answers as Choice says; a token taken from
        the cache or from a request becomes the current one, and on failure
        the current token is kept. */
    method Get(now: int, cached: Option<Token>, requested: Option<Token>) returns (t: Option<Token>, source: Source)
      modifies this
      ensures (source, t) == Choice(old(current), now, cached, requested)
      ensures current == (if t.Some? then t else old(current))
    {
      if current.Some? && current.value.expires - 3600 > now {
        return current, Memory;
      }
      if cached.Some? {
        current := cached;
        return cached, Cache;
      }
      if requested.Some? {
        current := requested;
        return requested, Request;
      }
      return None, Failed;
    }
  }
}
