// Reading the DER bytes out of a PEM private key
// (crates/fakecloud-acm/src/service.rs). The body's base64 is the strict codec
// of module Base64.

module PemKeys {
  import opened Common
  import opened Text
  import Base64

  datatype PemError =
    | MissingBegin | MalformedBegin | WrongLabel | MissingEnd
    | EndBeforeBody | MissingNewline | NoBody | NotBase64

  datatype Located = Body(text: string) | Nowhere(reason: PemError)
  datatype Decoded = Der(bytes: seq<Base64.Byte>) | Malformed(reason: PemError)

  const BEGIN: string := "-----BEGIN "
  const DASHES: string := "-----"
  const LABEL: string := "PRIVATE KEY"
  const END: string := "-----END PRIVATE KEY-----"

  function DecodePrivateKey(pem: string): Decoded {
    var located := LocateBody(pem);
    if located.Nowhere? then Malformed(located.reason)
    else
      var bytes := Base64.Decode(WithoutWhitespace(located.text));
      if bytes.None? then Malformed(NotBase64) else Der(bytes.value)
  }

  function LocateBody(pem: string): Located {
    var start := BodyStart(pem);
    if start.NoStart? then Nowhere(start.reason) else BodyAfter(pem, start.at)
  }

  datatype Start = At(at: nat) | NoStart(reason: PemError)

  // Where the BEGIN line's closing dashes end.
  function BodyStart(pem: string): (r: Start)
    ensures r.At? ==> r.at <= |pem|
  {
    var begin := Find(pem, BEGIN);
    if begin.None? then NoStart(MissingBegin)
    else
      Found(pem, BEGIN);
      var afterBegin := pem[begin.value + 11..];
      var dash := Find(afterBegin, DASHES);
      if dash.None? then NoStart(MalformedBegin)
      else
        Found(afterBegin, DASHES);
        if Trim(afterBegin[..dash.value]) != LABEL then NoStart(WrongLabel)
        else At(begin.value + 11 + dash.value + 5)
  }

  // The part after the BEGIN line's closing dashes.
  function BodyAfter(pem: string, bodyStart: nat): Located
    requires bodyStart <= |pem|
  {
    var end := Find(pem, END);
    if end.None? then Nowhere(MissingEnd)
    else if end.value < bodyStart then Nowhere(EndBeforeBody)
    else
      var newline := Find(pem[bodyStart..], "\n");
      if newline.None? then Nowhere(MissingNewline)
      else
        var bodyFrom := bodyStart + newline.value + 1;
        if bodyFrom > end.value then Nowhere(NoBody)
        else
          Found(pem, END);
          Body(pem[bodyFrom..end.value])
  }

  // ---- the texts that decode ----

  // A BEGIN line whose marker starts at b and whose closing dashes start at d.
  ghost predicate BeginLine(pem: string, b: nat, d: nat) {
    && b + 11 <= d && d + 5 <= |pem|
    && pem[b..b + 11] == BEGIN && Trim(pem[b + 11..d]) == LABEL && pem[d..d + 5] == DASHES
  }

  // After it, the rest of that line up to the newline at n, the body, and an END
  // marker at e.
  ghost predicate BodyAndEnd(pem: string, from: nat, n: nat, e: nat) {
    && from <= n < e && e + 25 <= |pem|
    && '\n' !in pem[from..n] && pem[n] == '\n'
    && pem[e..e + 25] == END
  }

  ghost predicate Block(pem: string, b: nat, d: nat, n: nat, e: nat) {
    BeginLine(pem, b, d) && BodyAndEnd(pem, d + 5, n, e)
  }

  ghost predicate FirstAt(hay: string, needle: string, at: nat) {
    OccursAt(hay, needle, at) && forall i: nat :: i < at ==> !OccursAt(hay, needle, i)
  }

  // The block the decoder looks at: from the first BEGIN marker of the text to
  // its first END marker.
  ghost predicate KeyBlock(pem: string, b: nat, d: nat, n: nat, e: nat) {
    Block(pem, b, d, n, e) && FirstAt(pem, BEGIN, b) && FirstAt(pem, END, e)
  }

  // A text that spells bytes in base64 with any white space in between.
  ghost predicate Spells(text: string, bs: seq<Base64.Byte>) {
    WithoutWhitespace(text) == Base64.Encode(bs)
  }

  lemma NotAt(hay: string, needle: string, i: nat, k: nat)
    requires k < |needle| && (i + k < |hay| ==> hay[i + k] != needle[k])
    ensures !OccursAt(hay, needle, i)
  {
    if i + |needle| <= |hay| {
      assert hay[i..i + |needle|][k] == hay[i + k];
    }
  }

  lemma FindFirstOf(hay: string, needle: string, at: nat)
    requires needle != [] && OccursAt(hay, needle, at) && needle[0] !in hay[..at]
    ensures FirstAt(hay, needle, at) && Find(hay, needle) == Some(at)
  {
    forall i: nat | i < at ensures !OccursAt(hay, needle, i) {
      assert hay[i] in hay[..at];
      NotAt(hay, needle, i, 0);
    }
    FindIsFirst(hay, needle, at);
  }

  lemma {:induction false} TrimStartKeeps(s: string, c: char)
    requires c in s && !IsWhitespace(c)
    ensures c in TrimStart(s)
  {
    if IsWhitespace(s[0]) { TrimStartKeeps(s[1..], c); }
  }

  lemma {:induction false} TrimEndKeeps(s: string, c: char)
    requires c in s && !IsWhitespace(c)
    ensures c in TrimEnd(s)
  {
    if IsWhitespace(s[|s| - 1]) {
      assert s == s[..|s| - 1] + [s[|s| - 1]];
      TrimEndKeeps(s[..|s| - 1], c);
    }
  }

  // The label of a block holds no dash, whatever white space surrounds it.
  lemma LabelHasNoDash(title: string)
    requires Trim(title) == LABEL
    ensures '-' !in title
  {
    forall c | c in title ensures c != '-' {
      if !IsWhitespace(c) {
        TrimStartKeeps(title, c);
        TrimEndKeeps(TrimStart(title), c);
      }
    }
  }

  // Neither does its body.
  lemma BodyHasNoDash(body: string, bs: seq<Base64.Byte>)
    requires Spells(body, bs)
    ensures '-' !in body
  {
    Base64.EncodingInAlphabet(bs);
    forall c | c in body ensures c != '-' {
      assert IsWhitespace(c) || c in WithoutWhitespace(body);
    }
  }

  lemma EndMarker()
    ensures |END| == 25 && END[5] == 'E' && END[20] == '-'
    ensures forall k :: 0 <= k < 5 ==> END[k] == '-'
    ensures forall k :: 0 <= k < 25 ==> END[k] != '\n'
  {
  }

  // The dashes of the BEGIN line (at b and at d) cannot start an END marker.
  lemma NoEarlyEnd(pem: string, b: nat, d: nat, n: nat, e: nat)
    requires b + 11 <= d && d + 5 <= n < e < |pem| && pem[b + 5] == 'B' && pem[n] == '\n' && OccursAt(pem, END, e)
    requires forall i :: 0 <= i < e && pem[i] == '-' ==> b <= i < b + 5 || d <= i < d + 5
    ensures FirstAt(pem, END, e)
  {
    EndMarker();
    forall i: nat | i < e ensures !OccursAt(pem, END, i) {
      if pem[i] != '-' {
        NotAt(pem, END, i, 0);
      } else if i < d {
        NotAt(pem, END, i, b + 5 - i);
      } else if i > d {
        NotAt(pem, END, i, d + 5 - i);
      } else if n < d + 25 {
        NotAt(pem, END, i, n - d);
      } else {
        NotAt(pem, END, i, 20);
      }
    }
  }

  lemma DashesFound(pem: string, b: nat, d: nat)
    requires BeginLine(pem, b, d)
    ensures Find(pem[b + 11..], DASHES) == Some(d - b - 11)
  {
    var after := pem[b + 11..];
    assert after[..d - b - 11] == pem[b + 11..d];
    assert after[d - b - 11..d - b - 11 + 5] == pem[d..d + 5];
    LabelHasNoDash(pem[b + 11..d]);
    FindFirstOf(after, DASHES, d - b - 11);
  }

  lemma BeginLineFound(pem: string, b: nat, d: nat)
    requires BeginLine(pem, b, d) && FirstAt(pem, BEGIN, b)
    ensures BodyStart(pem) == At(d + 5)
  {
    FindIsFirst(pem, BEGIN, b);
    DashesFound(pem, b, d);
    assert pem[b + 11..][..d - b - 11] == pem[b + 11..d];
  }

  lemma BodyFound(pem: string, from: nat, n: nat, e: nat)
    requires BodyAndEnd(pem, from, n, e) && FirstAt(pem, END, e)
    ensures BodyAfter(pem, from) == Body(pem[n + 1..e])
  {
    var rest := pem[from..];
    assert rest[..n - from] == pem[from..n];
    assert rest[n - from..n - from + 1] == [pem[n]];
    FindFirstOf(rest, "\n", n - from);
    FindIsFirst(pem, END, e);
  }

  // Where nothing else holds a dash: before the block, in the rest of the BEGIN
  // line, and in the body.
  ghost predicate Undashed(pem: string, b: nat, d: nat, n: nat, e: nat)
    requires b + 11 <= d && d + 5 <= n < e <= |pem|
  {
    '-' !in pem[..b] && '-' !in pem[d + 5..n] && '-' !in pem[n + 1..e]
  }

  lemma DashesOfBlock(pem: string, b: nat, d: nat, n: nat, e: nat, i: nat)
    requires Block(pem, b, d, n, e) && Undashed(pem, b, d, n, e)
    requires i < e && !(b <= i < b + 5) && !(d <= i < d + 5)
    ensures pem[i] != '-'
  {
    if i < b {
      assert pem[i] in pem[..b];
    } else if i < b + 11 {
      assert pem[i] == pem[b..b + 11][i - b] == BEGIN[i - b];
    } else if i < d {
      LabelHasNoDash(pem[b + 11..d]);
      assert pem[i] in pem[b + 11..d];
    } else if i < n {
      assert pem[i] in pem[d + 5..n];
    } else if n < i {
      assert pem[i] in pem[n + 1..e];
    }
  }

  lemma EndComesFirst(pem: string, b: nat, d: nat, n: nat, e: nat)
    requires Block(pem, b, d, n, e) && Undashed(pem, b, d, n, e)
    ensures FirstAt(pem, END, e)
  {
    forall i | 0 <= i < e && pem[i] == '-' ensures b <= i < b + 5 || d <= i < d + 5 {
      if !(b <= i < b + 5 || d <= i < d + 5) { DashesOfBlock(pem, b, d, n, e, i); }
    }
    assert pem[b + 5] == pem[b..b + 11][5] == BEGIN[5];
    NoEarlyEnd(pem, b, d, n, e);
  }

  lemma KeyBlockLocated(pem: string, b: nat, d: nat, n: nat, e: nat)
    requires KeyBlock(pem, b, d, n, e)
    ensures LocateBody(pem) == Body(pem[n + 1..e])
  {
    BeginLineFound(pem, b, d);
    BodyFound(pem, d + 5, n, e);
  }

  lemma BodyIsLocated(pem: string, from: nat) returns (n: nat, e: nat)
    requires from <= |pem| && BodyAfter(pem, from).Body?
    ensures BodyAndEnd(pem, from, n, e) && FirstAt(pem, END, e) && BodyAfter(pem, from) == Body(pem[n + 1..e])
  {
    var rest := pem[from..];
    var newline := Find(rest, "\n").value;
    n, e := from + newline, Find(pem, END).value;
    Found(rest, "\n");
    Found(pem, END);
    assert rest[newline..newline + 1] == [pem[n]];
    forall k | 0 <= k < newline ensures rest[k] != '\n' {
      assert !OccursAt(rest, "\n", k);
      assert rest[k..k + 1] == [rest[k]];
    }
    assert pem[from..n] == rest[..newline];
  }

  lemma BeginIsLocated(pem: string) returns (b: nat, d: nat)
    requires BodyStart(pem).At?
    ensures BeginLine(pem, b, d) && FirstAt(pem, BEGIN, b) && BodyStart(pem) == At(d + 5)
  {
    b := Find(pem, BEGIN).value;
    Found(pem, BEGIN);
    var dash := Find(pem[b + 11..], DASHES).value;
    Found(pem[b + 11..], DASHES);
    d := b + 11 + dash;
    SliceOfRest(pem, b + 11, 0, dash);
    SliceOfRest(pem, b + 11, dash, dash + 5);
  }

  lemma SliceOfRest(s: string, from: nat, lo: nat, hi: nat)
    requires from <= |s| && lo <= hi <= |s| - from
    ensures s[from..][lo..hi] == s[from + lo..from + hi]
  {
  }

  lemma LocatedIsKeyBlock(pem: string) returns (b: nat, d: nat, n: nat, e: nat)
    requires LocateBody(pem).Body?
    ensures KeyBlock(pem, b, d, n, e) && LocateBody(pem) == Body(pem[n + 1..e])
  {
    b, d := BeginIsLocated(pem);
    n, e := BodyIsLocated(pem, d + 5);
  }

  lemma TextDecodes(text: string, bs: seq<Base64.Byte>)
    ensures Base64.Decode(WithoutWhitespace(text)) == Some(bs) <==> Spells(text, bs)
  {
    Base64.DecodeExact(WithoutWhitespace(text), bs);
  }

  lemma DecodesWhatIsLocated(pem: string, bs: seq<Base64.Byte>)
    ensures DecodePrivateKey(pem) == Der(bs) <==> LocateBody(pem).Body? && Spells(LocateBody(pem).text, bs)
  {
    if LocateBody(pem).Body? { TextDecodes(LocateBody(pem).text, bs); }
  }

  // A text decodes to given bytes exactly when the block from its first BEGIN
  // marker to its first END marker is a PRIVATE KEY block whose body spells them,
  // whatever the line layout of the body, the white space around the label and
  // the text before and after.
  lemma DecodesExactly(pem: string, bs: seq<Base64.Byte>)
    ensures DecodePrivateKey(pem) == Der(bs)
            <==> exists b: nat, d: nat, n: nat, e: nat :: KeyBlock(pem, b, d, n, e) && Spells(pem[n + 1..e], bs)
  {
    DecodesWhatIsLocated(pem, bs);
    if LocateBody(pem).Body? {
      var b, d, n, e := LocatedIsKeyBlock(pem);
      assert KeyBlock(pem, b, d, n, e);
    }
    forall b: nat, d: nat, n: nat, e: nat | KeyBlock(pem, b, d, n, e) && Spells(pem[n + 1..e], bs)
      ensures LocateBody(pem) == Body(pem[n + 1..e])
    {
      KeyBlockLocated(pem, b, d, n, e);
    }
  }

  // In particular a block is the one looked at when no dash precedes it or
  // follows the BEGIN line's own dashes on that line.
  lemma PlainBlockDecodes(pem: string, b: nat, d: nat, n: nat, e: nat, bs: seq<Base64.Byte>)
    requires Block(pem, b, d, n, e) && Spells(pem[n + 1..e], bs)
    requires '-' !in pem[..b] && '-' !in pem[d + 5..n]
    ensures KeyBlock(pem, b, d, n, e) && DecodePrivateKey(pem) == Der(bs)
  {
    BodyHasNoDash(pem[n + 1..e], bs);
    EndComesFirst(pem, b, d, n, e);
    FindFirstOf(pem, BEGIN, b);
    KeyBlockLocated(pem, b, d, n, e);
    DecodesWhatIsLocated(pem, bs);
  }
}
