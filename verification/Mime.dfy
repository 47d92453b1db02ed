/** The explicit-stack walks over a message payload: `_payload_content`, `_attachment_parts`,
    `fetch_attachment`'s choice of a part, and `_inline_available`. */
module Mime {
  import opened Wrappers
  import opened Characters
  import opened GmailText

  /** A part's `filename`: missing or falsy, a string, or some other truthy value. */
  datatype Filename = NoName | Name(text: string) | ForeignName

  /** A part's `body.data`. */
  datatype Data = NoData | Encoded(text: string) | ForeignData

  datatype Body = NoBody | Body(data: Data, attachmentId: bool, size: Option<int>)

  /** One value of the payload tree: a dictionary, or something else that the walks skip. */
  datatype Node =
    | Other
    | Part(mime: Option<string>, filename: Filename, body: Body, nested: Nested)

  datatype Nested = NoParts | ForeignParts | Parts(nodes: seq<Node>)

  /** Base64, UTF-8 replacement and tag stripping, as functions of the encoded text. */
  datatype Decoders = Decoders(decode: string -> string, strict: string -> bool, render: string -> string)

  datatype Listed = Listed(filename: string, mime: string, size: int)

  // ---- the recursive reading of a tree ----

  function Children(node: Node): seq<Node> {
    if node.Part? && node.nested.Parts? then node.nested.nodes else []
  }

  /** Every dictionary of the tree, parents before children, children in order. */
  function Preorder(node: Node): seq<Node>
    decreases node, 0
  {
    match node
    case Other => []
    case Part(_, _, _, Parts(nodes)) => [node] + PreorderAll(nodes)
    case _ => [node]
  }

  function PreorderAll(nodes: seq<Node>): seq<Node>
    decreases nodes, 0
  {
    if nodes == [] then [] else Preorder(nodes[0]) + PreorderAll(nodes[1..])
  }

  predicate IsAttachment(part: Node) {
    part.Part? && part.filename.Name? && part.filename.text != ""
  }

  function Attachments(parts: seq<Node>): seq<Node> {
    if parts == [] then []
    else
      var last := parts[|parts| - 1];
      Attachments(parts[..|parts| - 1]) + if IsAttachment(last) then [last] else []
  }

  function Clip(s: string, maximum: nat): string {
    if |s| <= maximum then s else s[..maximum]
  }

  function Describe(part: Node): Listed
    requires IsAttachment(part)
  {
    var size := if part.body.Body? && part.body.size.Some? then part.body.size.value else 0;
    Listed(Clip(part.filename.text, 1024),
           if part.mime.Some? then part.mime.value else "",
           if size >= 0 then size else 0)
  }

  function Listing(parts: seq<Node>): seq<Listed> {
    if parts == [] then []
    else
      var last := parts[|parts| - 1];
      Listing(parts[..|parts| - 1]) + if IsAttachment(last) then [Describe(last)] else []
  }

  function DecodedText(d: Decoders, part: Node): string
    requires part.Part?
  {
    if part.body.Body? && part.body.data.Encoded? && part.body.data.text != "" then d.decode(part.body.data.text)
    else ""
  }

  predicate IsText(d: Decoders, part: Node, mime: string) {
    part.Part? && !IsAttachment(part) && part.mime == Some(mime) && DecodedText(d, part) != ""
  }

  function Plain(d: Decoders, parts: seq<Node>): seq<string> {
    if parts == [] then []
    else
      var last := parts[|parts| - 1];
      Plain(d, parts[..|parts| - 1]) + if IsText(d, last, "text/plain") then [DecodedText(d, last)] else []
  }

  function Rendered(d: Decoders, parts: seq<Node>): seq<string> {
    if parts == [] then []
    else
      var last := parts[|parts| - 1];
      Rendered(d, parts[..|parts| - 1])
      + if IsText(d, last, "text/html") then [d.render(DecodedText(d, last))] else []
  }

  /** The message body: the plain parts in document order, or the HTML ones when there is none. */
  function BodyText(d: Decoders, payload: Node): string {
    var parts := Preorder(payload);
    JoinLines(if Plain(d, parts) != [] then Plain(d, parts) else Rendered(d, parts))
  }

  /** What one part must look like for the whole body to count as inline. */
  predicate InlinePart(d: Decoders, part: Node) {
    && part.Part? && !part.nested.ForeignParts?
    && (|| IsAttachment(part) || part.filename.ForeignName?
        || part.mime !in {Some("text/plain"), Some("text/html")}
        || (&& part.body.Body? && !part.body.attachmentId && !part.body.data.ForeignData?
            && d.strict(if part.body.data.Encoded? then part.body.data.text else "")))
  }

  predicate InlineAvailable(d: Decoders, payload: Node) {
    payload.Part? && forall part | part in Preorder(payload) :: InlinePart(d, part)
  }

  // ---- the stack and what it still holds ----

  /** The parts left to visit when the top of the stack, its last element, is taken first. */
  function Pending(stack: seq<Node>): seq<Node> {
    if stack == [] then [] else Preorder(stack[|stack| - 1]) + Pending(stack[..|stack| - 1])
  }

  function Reversed(nodes: seq<Node>): seq<Node> {
    if nodes == [] then [] else Reversed(nodes[1..]) + (if nodes[0].Part? then [nodes[0]] else [])
  }

  lemma {:induction false} PendingConcat(below: seq<Node>, above: seq<Node>)
    ensures Pending(below + above) == Pending(above) + Pending(below)
  {
    hide Preorder;
    if above == [] {
      assert below + above == below;
    } else {
      var all := below + above;
      assert all[..|all| - 1] == below + above[..|above| - 1];
      PendingConcat(below, above[..|above| - 1]);
    }
  }

  lemma {:induction false} PendingReversed(nodes: seq<Node>)
    ensures Pending(Reversed(nodes)) == PreorderAll(nodes)
  {
    if nodes != [] {
      PendingReversed(nodes[1..]);
      var first := if nodes[0].Part? then [nodes[0]] else [];
      PendingConcat(Reversed(nodes[1..]), first);
      assert Pending(first) == Preorder(nodes[0]);
    }
  }

  /** Popping a part and pushing its children keeps the visiting order. */
  lemma PopAndPush(stack: seq<Node>)
    requires stack != [] && stack[|stack| - 1].Part?
    ensures var top := stack[|stack| - 1];
            Pending(stack) == [top] + Pending(stack[..|stack| - 1] + Reversed(Children(top)))
  {
    var top, below := stack[|stack| - 1], stack[..|stack| - 1];
    PreorderOfPart(top);
    Regroup(top, Children(top), below);
  }

  lemma PreorderOfPart(part: Node)
    requires part.Part?
    ensures Preorder(part) == [part] + PreorderAll(Children(part))
  {
  }

  lemma Regroup(top: Node, children: seq<Node>, below: seq<Node>)
    ensures [top] + PreorderAll(children) + Pending(below) == [top] + Pending(below + Reversed(children))
  {
    PendingConcat(below, Reversed(children));
    PendingReversed(children);
  }

  predicate AllParts(stack: seq<Node>) {
    forall i | 0 <= i < |stack| :: stack[i].Part?
  }

  lemma {:induction false} ReversedParts(nodes: seq<Node>)
    ensures AllParts(Reversed(nodes))
  {
    if nodes != [] {
      ReversedParts(nodes[1..]);
    }
  }

  /** What the walks know before their first step. */
  lemma NothingVisited(d: Decoders, payload: Node)
    requires payload.Part?
    ensures AllParts([payload]) && Pending([payload]) == Preorder(payload) && Pending([]) == []
    ensures Attachments([]) == [] && Listing([]) == [] && Plain(d, []) == [] && Rendered(d, []) == []
  {
    var below: seq<Node> := [payload][..0];
    assert below == [];
    assert Pending([payload]) == Preorder(payload) + Pending(below);
  }

  /** One step of a walk: the top part is visited, its children take its place. */
  lemma VisitTop(done: seq<Node>, stack: seq<Node>)
    requires stack != [] && AllParts(stack)
    ensures var part := stack[|stack| - 1];
            var rest := stack[..|stack| - 1] + Reversed(Children(part));
            && AllParts(rest) && |Pending(rest)| < |Pending(stack)|
            && done + Pending(stack) == done + [part] + Pending(rest)
  {
    hide Pending, Reversed, Children;
    PopAndPush(stack);
    ReversedParts(Children(stack[|stack| - 1]));
  }

  /** A visited part adds to each list what it alone would give. */
  lemma TakesPart(d: Decoders, done: seq<Node>, part: Node)
    ensures Attachments(done + [part]) == Attachments(done) + (if IsAttachment(part) then [part] else [])
    ensures Listing(done + [part]) == Listing(done) + (if IsAttachment(part) then [Describe(part)] else [])
    ensures Plain(d, done + [part]) ==
            Plain(d, done) + (if IsText(d, part, "text/plain") then [DecodedText(d, part)] else [])
    ensures Rendered(d, done + [part]) ==
            Rendered(d, done) + (if IsText(d, part, "text/html") then [d.render(DecodedText(d, part))] else [])
  {
    hide IsAttachment, Describe, IsText, DecodedText;
    assert (done + [part])[..|done|] == done;
  }

  // ---- the loops ----

  /** `_payload_content` */
  method PayloadContent(d: Decoders, payload: Node) returns (text: string, attachments: seq<Listed>)
    ensures text == BodyText(d, payload)
    ensures attachments == Listing(Preorder(payload))
  {
    if payload.Other? {
      return "", [];
    }
    hide Describe, Preorder, Reversed, Children, Pending, Listing, Plain, Rendered, DecodedText;
    NothingVisited(d, payload);
    var plain: seq<string>, renderedHtml: seq<string> := [], [];
    attachments := [];
    var stack := [payload];
    ghost var done: seq<Node> := [];
    while stack != []
      invariant AllParts(stack)
      invariant done + Pending(stack) == Preorder(payload)
      invariant attachments == Listing(done)
      invariant plain == Plain(d, done) && renderedHtml == Rendered(d, done)
      decreases |Pending(stack)|
    {
      VisitTop(done, stack);
      var part := stack[|stack| - 1];
      TakesPart(d, done, part);
      stack := stack[..|stack| - 1] + Reversed(Children(part));
      done := done + [part];
      if IsAttachment(part) {
        attachments := attachments + [Describe(part)];
        continue;
      }
      var decoded := DecodedText(d, part);
      if part.mime == Some("text/plain") && decoded != "" {
        plain := plain + [decoded];
      } else if part.mime == Some("text/html") && decoded != "" {
        renderedHtml := renderedHtml + [d.render(decoded)];
      }
    }
    assert done + [] == done;
    text := JoinLines(if plain != [] then plain else renderedHtml);
  }

  /** `_attachment_parts` */
  method AttachmentParts(payload: Node) returns (found: seq<Node>)
    ensures found == Attachments(Preorder(payload))
  {
    if payload.Other? {
      return [];
    }
    hide IsAttachment, Preorder, Reversed, Children, Pending, Attachments;
    ghost var d := Decoders(s => s, s => true, s => s);
    NothingVisited(d, payload);
    found := [];
    var stack := [payload];
    ghost var done: seq<Node> := [];
    while stack != []
      invariant AllParts(stack)
      invariant done + Pending(stack) == Preorder(payload)
      invariant found == Attachments(done)
      decreases |Pending(stack)|
    {
      VisitTop(done, stack);
      var part := stack[|stack| - 1];
      TakesPart(d, done, part);
      stack := stack[..|stack| - 1] + Reversed(Children(part));
      done := done + [part];
      if IsAttachment(part) {
        found := found + [part];
      }
    }
    assert done + [] == done;
  }

  function Dictionaries(nodes: seq<Node>): seq<Node> {
    if nodes == [] then []
    else (if nodes[0].Part? then [nodes[0]] else []) + Dictionaries(nodes[1..])
  }

  lemma {:induction false} SamePending(nodes: seq<Node>)
    ensures AllParts(Dictionaries(nodes))
    ensures |Pending(Dictionaries(nodes))| == |PreorderAll(nodes)|
    ensures forall part :: part in Pending(Dictionaries(nodes)) <==> part in PreorderAll(nodes)
  {
    if nodes != [] {
      SamePending(nodes[1..]);
      var first := if nodes[0].Part? then [nodes[0]] else [];
      PendingConcat(first, Dictionaries(nodes[1..]));
      assert Pending(first) == Preorder(nodes[0]);
    }
  }

  /** `_inline_available`: its children are taken last-first, which the verdict does not show. */
  method CheckInline(d: Decoders, payload: Node) returns (available: bool)
    ensures available == InlineAvailable(d, payload)
  {
    if payload.Other? {
      return false;
    }
    var pending := [payload];
    while pending != []
      invariant AllParts(pending)
      invariant InlineAvailable(d, payload) <==> forall part | part in Pending(pending) :: InlinePart(d, part)
      decreases |Pending(pending)|
    {
      ghost var before := Pending(pending);
      var part, rest := pending[|pending| - 1], pending[..|pending| - 1];
      assert Preorder(part) == [part] + PreorderAll(Children(part));
      assert before == [part] + PreorderAll(Children(part)) + Pending(rest);
      assert part in before;
      if part.nested.ForeignParts? {
        assert !InlinePart(d, part);
        return false;
      }
      SamePending(Children(part));
      PendingConcat(rest, Dictionaries(Children(part)));
      pending := rest + Dictionaries(Children(part));
      assert forall p :: p in before <==> p == part || p in Pending(pending);
      assert InlineAvailable(d, payload) <==>
             InlinePart(d, part) && forall p | p in Pending(pending) :: InlinePart(d, p);
      if IsAttachment(part) || part.filename.ForeignName? || part.mime !in {Some("text/plain"), Some("text/html")} {
        continue;
      }
      if !part.body.Body? || part.body.attachmentId {
        return false;
      }
      if part.body.data.ForeignData? {
        return false;
      }
      if !d.strict(if part.body.data.Encoded? then part.body.data.text else "") {
        return false;
      }
    }
    available := true;
  }

  // ---- what the readings mean ----

  /** The node at the end of a path of child positions. */
  function NodeAt(node: Node, path: seq<nat>): Option<Node>
    decreases |path|
  {
    if path == [] then Some(node)
    else if path[0] < |Children(node)| then NodeAt(Children(node)[path[0]], path[1..])
    else None
  }

  /** A parent stands before its children, and a child with all below it before the next child. */
  predicate Earlier(a: seq<nat>, b: seq<nat>)
    decreases |b|
  {
    b != [] && (a == [] || a[0] < b[0] || (a[0] == b[0] && Earlier(a[1..], b[1..])))
  }

  predicate LeadsToPart(node: Node, path: seq<nat>) {
    NodeAt(node, path).Some? && NodeAt(node, path).value.Part?
  }

  /** Each path leads to its part. */
  predicate Lead(node: Node, paths: seq<seq<nat>>, parts: seq<Node>) {
    |paths| == |parts| &&
    forall i | 0 <= i < |paths| :: LeadsToPart(node, paths[i]) && NodeAt(node, paths[i]).value == parts[i]
  }

  predicate InDocumentOrder(paths: seq<seq<nat>>) {
    forall i, j | 0 <= i < j < |paths| :: Earlier(paths[i], paths[j])
  }

  /** No part is left out but those below earlier children than the n-th, and the node itself if asked. */
  ghost predicate Cover(node: Node, n: nat, paths: seq<seq<nat>>) {
    forall path | LeadsToPart(node, path) && path != [] && path[0] >= n :: path in paths
  }

  predicate AllBelow(n: nat, paths: seq<seq<nat>>) {
    forall i | 0 <= i < |paths| :: paths[i] != [] && paths[i][0] >= n
  }

  /** The paths lead to these parts, in document order, and are all that lead to a part. */
  ghost predicate LeadTo(node: Node, paths: seq<seq<nat>>, parts: seq<Node>) {
    Lead(node, paths, parts) && InDocumentOrder(paths) && forall path | LeadsToPart(node, path) :: path in paths
  }

  /** The same for the children from the n-th on. */
  ghost predicate LeadBelow(node: Node, n: nat, paths: seq<seq<nat>>, parts: seq<Node>) {
    Lead(node, paths, parts) && InDocumentOrder(paths) && AllBelow(n, paths) && Cover(node, n, paths)
  }

  function Under(n: nat, paths: seq<seq<nat>>): seq<seq<nat>> {
    seq(|paths|, i requires 0 <= i < |paths| => [n] + paths[i])
  }

  lemma NothingBelow(node: Node)
    ensures LeadBelow(node, |Children(node)|, [], [])
  {
  }

  lemma DownOne(node: Node, n: nat, path: seq<nat>)
    requires n < |Children(node)|
    ensures NodeAt(node, [n] + path) == NodeAt(Children(node)[n], path)
    ensures LeadsToPart(node, [n] + path) <==> LeadsToPart(Children(node)[n], path)
  {
    assert ([n] + path)[1..] == path;
  }

  lemma LeadJoins(node: Node, n: nat, paths: seq<seq<nat>>, parts: seq<Node>, later: seq<seq<nat>>, rest: seq<Node>)
    requires n < |Children(node)| && Lead(Children(node)[n], paths, parts) && Lead(node, later, rest)
    ensures Lead(node, Under(n, paths) + later, parts + rest)
  {
    hide NodeAt, LeadsToPart;
    forall i | 0 <= i < |paths|
      ensures LeadsToPart(node, [n] + paths[i]) <==> LeadsToPart(Children(node)[n], paths[i])
      ensures NodeAt(node, [n] + paths[i]) == NodeAt(Children(node)[n], paths[i]) {
      DownOne(node, n, paths[i]);
    }
  }

  lemma EarlierUnder(n: nat, a: seq<nat>, b: seq<nat>)
    ensures Earlier([n] + a, [n] + b) <==> Earlier(a, b)
  {
    assert ([n] + a)[1..] == a && ([n] + b)[1..] == b;
  }

  lemma OrderJoins(n: nat, paths: seq<seq<nat>>, later: seq<seq<nat>>)
    requires InDocumentOrder(paths) && InDocumentOrder(later) && AllBelow(n + 1, later)
    ensures InDocumentOrder(Under(n, paths) + later) && AllBelow(n, Under(n, paths) + later)
  {
    var all, m := Under(n, paths) + later, |paths|;
    forall i, j | 0 <= i < j < |all| ensures Earlier(all[i], all[j]) {
      if j < m {
        EarlierUnder(n, paths[i], paths[j]);
      } else if i < m {
        assert all[i][0] == n < all[j][0];
      }
    }
  }

  lemma CoverJoins(node: Node, n: nat, paths: seq<seq<nat>>, later: seq<seq<nat>>)
    requires n < |Children(node)| && Cover(node, n + 1, later)
    requires forall path | LeadsToPart(Children(node)[n], path) :: path in paths
    ensures Cover(node, n, Under(n, paths) + later)
  {
    hide LeadsToPart;
    var all := Under(n, paths) + later;
    forall path | LeadsToPart(node, path) && path != [] && path[0] >= n ensures path in all {
      if path[0] == n {
        assert path == [n] + path[1..];
        DownOne(node, n, path[1..]);
        var i :| 0 <= i < |paths| && paths[i] == path[1..];
        assert all[i] == path;
      } else {
        assert path in later;
      }
    }
  }

  lemma ChildLeads(node: Node, n: nat, paths: seq<seq<nat>>, parts: seq<Node>, later: seq<seq<nat>>, rest: seq<Node>)
    requires n < |Children(node)| && LeadTo(Children(node)[n], paths, parts) && LeadBelow(node, n + 1, later, rest)
    ensures LeadBelow(node, n, Under(n, paths) + later, parts + rest)
  {
    hide Lead, InDocumentOrder, Cover, AllBelow, Under;
    LeadJoins(node, n, paths, parts, later, rest);
    OrderJoins(n, paths, later);
    CoverJoins(node, n, paths, later);
  }

  lemma NodeLeads(node: Node, paths: seq<seq<nat>>, parts: seq<Node>)
    requires node.Part? && LeadBelow(node, 0, paths, parts)
    ensures LeadTo(node, [[]] + paths, [node] + parts)
  {
    hide Earlier;
    var all: seq<seq<nat>> := [[]] + paths;
    assert NodeAt(node, []) == Some(node);
    hide NodeAt;
    forall i, j | 0 <= i < j < |all| ensures Earlier(all[i], all[j]) {
      FirstIsEarlier(all[j]);
    }
    forall path | LeadsToPart(node, path) ensures path in all {
      assert path == [] || path in paths;
    }
  }

  lemma FirstIsEarlier(path: seq<nat>)
    ensures path != [] ==> Earlier([], path)
  {
  }

  lemma OtherLeads(node: Node)
    requires node.Other?
    ensures LeadTo(node, [], [])
  {
    assert Children(node) == [];
  }

  /** The preorder of a tree is its parts in document order, each at one path and each path to a part once. */
  lemma {:induction false} PreorderIs(node: Node) returns (paths: seq<seq<nat>>)
    ensures LeadTo(node, paths, Preorder(node))
    decreases node, 1
  {
    hide LeadTo, LeadBelow;
    if node.Other? {
      paths := [];
      OtherLeads(node);
    } else {
      var below := PreorderBelow(node, 0);
      assert Preorder(node) == [node] + PreorderAll(Children(node)[0..]);
      NodeLeads(node, below, PreorderAll(Children(node)[0..]));
      paths := [[]] + below;
    }
  }

  lemma {:induction false} PreorderBelow(node: Node, n: nat) returns (paths: seq<seq<nat>>)
    requires n <= |Children(node)|
    ensures LeadBelow(node, n, paths, PreorderAll(Children(node)[n..]))
    decreases node, 0, |Children(node)| - n
  {
    hide LeadTo, LeadBelow, Preorder;
    var nodes := Children(node);
    if n == |nodes| {
      paths := [];
      NothingBelow(node);
    } else {
      var here := PreorderIs(nodes[n]);
      var later := PreorderBelow(node, n + 1);
      assert nodes[n..][1..] == nodes[n + 1..];
      ChildLeads(node, n, here, Preorder(nodes[n]), later, PreorderAll(nodes[n + 1..]));
      paths := Under(n, here) + later;
    }
  }

  /** The part says no more than a page can show: no list of parts that is none, and where it is a text of the
      message, the text is here, and decodes. */
  predicate ReadsInline(d: Decoders, part: Node) {
    && part.Part? && !part.nested.ForeignParts?
    && (part.filename in {NoName, Name("")} && part.mime in {Some("text/plain"), Some("text/html")} ==>
          && part.body.Body? && !part.body.attachmentId
          && (part.body.data.NoData? ==> d.strict(""))
          && (part.body.data.Encoded? ==> d.strict(part.body.data.text))
          && !part.body.data.ForeignData?)
  }

  /** A message can be read inline exactly when each of its parts, wherever it stands in the tree, can. */
  lemma InlineIff(d: Decoders, payload: Node)
    ensures InlineAvailable(d, payload) <==>
            payload.Part? && forall path | LeadsToPart(payload, path) :: ReadsInline(d, NodeAt(payload, path).value)
  {
    hide Preorder, NodeAt;
    var paths := PreorderIs(payload);
    var parts := Preorder(payload);
    forall part | part in parts ensures InlinePart(d, part) <==> ReadsInline(d, part) {
      var i :| 0 <= i < |parts| && parts[i] == part;
      assert LeadsToPart(payload, paths[i]);
    }
    forall path | LeadsToPart(payload, path) ensures NodeAt(payload, path).value in parts {
      var i :| 0 <= i < |paths| && paths[i] == path;
      assert parts[i] == NodeAt(payload, path).value;
    }
    forall part | part in parts
      ensures exists path :: LeadsToPart(payload, path) && NodeAt(payload, path).value == part {
      var i :| 0 <= i < |parts| && parts[i] == part;
      assert LeadsToPart(payload, paths[i]);
    }
  }

  /** A part that is no attachment, of this type, with a text in it. */
  predicate Holds(d: Decoders, part: Node, mime: string) {
    && part.Part? && (part.filename.Name? ==> part.filename.text == "") && part.mime == Some(mime)
    && part.body.Body? && part.body.data.Encoded? && part.body.data.text != "" && d.decode(part.body.data.text) != ""
  }

  /** The texts are those of all the parts of this type, in the order of the parts. */
  ghost predicate TextsOf(d: Decoders, parts: seq<Node>, mime: string, chosen: seq<nat>, texts: seq<string>) {
    && |chosen| == |texts|
    && (forall k | 0 <= k < |chosen| ::
          && chosen[k] < |parts| && Holds(d, parts[chosen[k]], mime)
          && texts[k] == d.decode(parts[chosen[k]].body.data.text))
    && (forall k, l | 0 <= k < l < |chosen| :: chosen[k] < chosen[l])
    && forall i: nat | i < |parts| && Holds(d, parts[i], mime) :: i in chosen
  }

  lemma OneMoreText(d: Decoders, parts: seq<Node>, last: Node, mime: string, chosen: seq<nat>, texts: seq<string>)
    requires TextsOf(d, parts, mime, chosen, texts)
    ensures if Holds(d, last, mime) then
              TextsOf(d, parts + [last], mime, chosen + [|parts|], texts + [d.decode(last.body.data.text)])
            else TextsOf(d, parts + [last], mime, chosen, texts)
  {
    var all := parts + [last];
    assert forall i | 0 <= i < |parts| :: all[i] == parts[i];
    assert all[|parts|] == last;
    if Holds(d, last, mime) {
      hide Holds;
      var more := chosen + [|parts|];
      assert forall i: nat | i < |parts| && i in chosen :: i in more;
      assert |parts| in more;
    }
  }

  lemma {:induction false} PlainIs(d: Decoders, parts: seq<Node>) returns (chosen: seq<nat>)
    ensures TextsOf(d, parts, "text/plain", chosen, Plain(d, parts))
  {
    hide TextsOf;
    chosen := [];
    if parts != [] {
      var n := |parts| - 1;
      chosen := PlainIs(d, parts[..n]);
      OneMoreText(d, parts[..n], parts[n], "text/plain", chosen, Plain(d, parts[..n]));
      assert parts == parts[..n] + [parts[n]];
      assert Plain(d, parts[..n]) + [] == Plain(d, parts[..n]);
      chosen := if Holds(d, parts[n], "text/plain") then chosen + [n] else chosen;
    } else {
      NoTexts(d, "text/plain");
    }
  }

  lemma NoTexts(d: Decoders, mime: string)
    ensures TextsOf(d, [], mime, [], [])
  {
  }

  /** Each text rendered. */
  function AllRendered(d: Decoders, texts: seq<string>): seq<string> {
    seq(|texts|, i requires 0 <= i < |texts| => d.render(texts[i]))
  }

  lemma {:induction false} RenderedIs(d: Decoders, parts: seq<Node>) returns (chosen: seq<nat>, texts: seq<string>)
    ensures TextsOf(d, parts, "text/html", chosen, texts) && Rendered(d, parts) == AllRendered(d, texts)
  {
    hide TextsOf;
    chosen, texts := [], [];
    if parts != [] {
      var n := |parts| - 1;
      chosen, texts := RenderedIs(d, parts[..n]);
      OneMoreText(d, parts[..n], parts[n], "text/html", chosen, texts);
      assert parts == parts[..n] + [parts[n]];
      if Holds(d, parts[n], "text/html") {
        chosen, texts := chosen + [n], texts + [d.decode(parts[n].body.data.text)];
      }
    } else {
      NoTexts(d, "text/html");
    }
  }

  /** The body is the plain texts, one below the other; only where there is none, the rendered HTML ones. */
  lemma BodyTextIs(d: Decoders, payload: Node) returns (chosen: seq<nat>, texts: seq<string>)
    ensures var parts := Preorder(payload);
            if exists part :: part in parts && Holds(d, part, "text/plain") then
              TextsOf(d, parts, "text/plain", chosen, texts) && BodyText(d, payload) == JoinLines(texts)
            else
              TextsOf(d, parts, "text/html", chosen, texts)
              && BodyText(d, payload) == JoinLines(AllRendered(d, texts))
  {
    hide JoinLines, Preorder, Holds;
    var parts := Preorder(payload);
    chosen := PlainIs(d, parts);
    texts := Plain(d, parts);
    if texts == [] {
      chosen, texts := RenderedIs(d, parts);
    } else {
      assert parts[chosen[0]] in parts;
    }
  }

  // ---- listing against fetching ----

  datatype FetchError = InvalidArguments | NotFound

  /** The part `fetch_attachment` settles on, before it reads any bytes. */
  function ChooseAttachment(payload: Node, index: int, filename: string): Result<Node, FetchError> {
    var parts := Attachments(Preorder(payload));
    if !RequiredText(filename, 1024) then Failure(InvalidArguments)
    else if !(0 <= index < |parts|) then Failure(NotFound)
    else
      AttachmentsAreParts(Preorder(payload));
      if Clip(parts[index].filename.text, 1024) != filename then Failure(NotFound) else Success(parts[index])
  }

  lemma {:induction false} AttachmentsAreParts(parts: seq<Node>)
    ensures forall i | 0 <= i < |Attachments(parts)| :: IsAttachment(Attachments(parts)[i])
  {
    if parts != [] {
      AttachmentsAreParts(parts[..|parts| - 1]);
    }
  }

  /** What the listing says of a part: up to 1024 characters of its name, its type, and a size from 0 on. */
  predicate ListedAs(part: Node, listed: Listed) {
    && part.Part? && part.filename.Name? && part.filename.text != ""
    && listed.filename <= part.filename.text
    && |listed.filename| == (if |part.filename.text| <= 1024 then |part.filename.text| else 1024)
    && (if part.mime.Some? then Some(listed.mime) == part.mime else listed.mime == "")
    && (if part.body.Body? && part.body.size.Some? && part.body.size.value > 0 then
          Some(listed.size) == part.body.size
        else listed.size == 0)
  }

  lemma {:induction false} ListingMatches(parts: seq<Node>)
    ensures |Listing(parts)| == |Attachments(parts)|
    ensures forall i | 0 <= i < |Attachments(parts)| ::
              && IsAttachment(Attachments(parts)[i]) && Listing(parts)[i] == Describe(Attachments(parts)[i])
              && ListedAs(Attachments(parts)[i], Listing(parts)[i])
  {
    if parts != [] {
      ListingMatches(parts[..|parts| - 1]);
    }
  }

  /** Every listed position fetches the part that was listed there, exactly when the listed name
      is one the fetch accepts; a blank name is listed and can never be fetched. */
  lemma ListedIsFetched(payload: Node, index: nat)
    requires index < |Listing(Preorder(payload))|
    ensures |Attachments(Preorder(payload))| == |Listing(Preorder(payload))|
    ensures var listed := Listing(Preorder(payload))[index];
            ChooseAttachment(payload, index, listed.filename) ==
              if Blank(listed.filename) || '\0' in listed.filename then Failure(InvalidArguments)
              else Success(Attachments(Preorder(payload))[index])
  {
    ListingMatches(Preorder(payload));
  }

  /** A name other than the listed one fetches nothing at all. */
  lemma OtherNameIsNotFetched(payload: Node, index: int, filename: string)
    requires 0 <= index < |Listing(Preorder(payload))| ==> Listing(Preorder(payload))[index].filename != filename
    ensures ChooseAttachment(payload, index, filename).Failure?
  {
    ListingMatches(Preorder(payload));
  }

  /** The family the fetch cannot reach, on its smallest members: any payload of one part with a blank name
      lists it, and no index and no name fetch it. */
  lemma BlankNameIsNeverFetched(part: Node, index: int, filename: string)
    requires part.Part? && part.filename.Name? && part.filename.text != "" && Blank(part.filename.text)
    requires !part.nested.Parts?
    ensures Listing(Preorder(part)) == [Describe(part)] && Blank(Describe(part).filename)
    ensures ChooseAttachment(part, index, filename).Failure?
  {
    assert Preorder(part) == [part] && [part][..0] == [];
    ListingMatches(Preorder(part));
  }
}
