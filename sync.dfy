/**
  Classifying one local document against the remote article index, the
  stateful hasher the comparison uses, and the status line printed for it.
*/
module Sync {
  import opened Wrappers
  import opened Utf8
  import opened Frontmatter

  /** Remote article identifiers are unsigned 32-bit integers. */
  type U32 = x: int | 0 <= x < 0x1_0000_0000

  /** The fields of a remote article the sync reads. */
  datatype Article = Article(id: U32, title: string, bodyMarkdown: string)

  /** What the run will do with a document. */
  datatype UploadStatus = Uploaded | Syncing(remote: Article) | Posting

  type Digest = seq<byte>

  /** A digest function without collisions: equal digests mean equal bytes. */
  ghost predicate Injective(hash: seq<byte> -> Digest) {
    forall x, y :: hash(x) == hash(y) ==> x == y
  }

  /** Article `i` is the first whose title is exactly `title`. */
  predicate IsFirstMatch(articles: seq<Article>, title: string, i: int) {
    && 0 <= i < |articles|
    && articles[i].title == title
    && forall j :: 0 <= j < i ==> articles[j].title != title
  }

  /** Position of the first article titled exactly `title`, if any. */
  function FirstMatch(articles: seq<Article>, title: string, from: nat := 0): (r: Option<nat>)
    requires from <= |articles|
    requires forall j :: 0 <= j < from ==> articles[j].title != title
    ensures r.None? <==> forall j :: 0 <= j < |articles| ==> articles[j].title != title
    ensures r.Some? ==> IsFirstMatch(articles, title, r.value)
    decreases |articles| - from
  {
    if from == |articles| then None
    else if articles[from].title == title then Some(from)
    else FirstMatch(articles, title, from + 1)
  }

  /**
    The decision for a document with the given title and raw content: post it
    when no remote article has its title, otherwise compare the digest of the
    whole raw content with the digest of the first match's stored markdown.
  */
  function Classify(title: string, content: string, articles: seq<Article>, hash: seq<byte> -> Digest): (r: UploadStatus)
    ensures r.Posting? <==> forall j :: 0 <= j < |articles| ==> articles[j].title != title
    ensures r.Syncing? ==> exists i :: IsFirstMatch(articles, title, i) && articles[i] == r.remote
                                       && hash(Encode(content)) != hash(Encode(r.remote.bodyMarkdown))
    ensures r.Uploaded? ==> exists i :: IsFirstMatch(articles, title, i)
                                        && hash(Encode(content)) == hash(Encode(articles[i].bodyMarkdown))
  {
    match FirstMatch(articles, title)
    case None => Posting
    case Some(i) =>
      if hash(Encode(content)) != hash(Encode(articles[i].bodyMarkdown)) then Syncing(articles[i])
      else Uploaded
  }

  /**
    With a collision-free digest the decision depends only on titles and
    content: Posting when no title matches, Uploaded when the first match
    stores exactly the local content, and otherwise Syncing of that match.
  */
  lemma ClassifyMeaning(title: string, content: string, articles: seq<Article>, hash: seq<byte> -> Digest)
    requires Injective(hash)
    ensures Classify(title, content, articles, hash) == Posting <==>
              forall j :: 0 <= j < |articles| ==> articles[j].title != title
    ensures Classify(title, content, articles, hash) == Uploaded <==>
              exists i :: IsFirstMatch(articles, title, i) && articles[i].bodyMarkdown == content
    ensures forall a :: Classify(title, content, articles, hash) == Syncing(a) <==>
              exists i :: IsFirstMatch(articles, title, i) && articles[i] == a && a.bodyMarkdown != content
  {
    var r := FirstMatch(articles, title);
    if r.Some? {
      var i := r.value;
      EncodeInjective(content, articles[i].bodyMarkdown);
    }
  }

  /**
    The SHA-256 hasher the run keeps: bytes are fed with `Update`, and
    `FinalizeReset` returns the digest of everything fed since the last reset
    and starts afresh. `hash` stands for the digest function itself.
  */
  class Hasher {
    const hash: seq<byte> -> Digest
    var pending: seq<byte>

    constructor (hash: seq<byte> -> Digest)
      ensures this.hash == hash && pending == []
    {
      this.hash := hash;
      pending := [];
    }

    method Update(data: seq<byte>)
      modifies this
      ensures pending == old(pending) + data
    {
      pending := pending + data;
    }

    method FinalizeReset() returns (d: Digest)
      modifies this
      ensures d == hash(old(pending)) && pending == []
    {
      d := hash(pending);
      pending := [];
    }
  }

  /** How a decision is displayed: one label per kind of decision. */
  function UploadLabel(s: UploadStatus): (r: string)
    ensures (r == "UPLOADED" <==> s.Uploaded?) && (r == "POSTING" <==> s.Posting?) && (r == "SYNCING" <==> s.Syncing?)
  {
    match s
    case Uploaded => "UPLOADED"
    case Posting => "POSTING"
    case Syncing(_) => "SYNCING"
  }

  /** How a publish status is displayed. */
  function PublishLabel(p: PublishStatus): (r: string)
    ensures (r == "published" <==> p == Published) && (r == "draft" <==> p == Draft)
  {
    match p
    case Published => "published"
    case Draft => "draft"
  }

  /** Width of the title column. */
  const Column: nat := 50

  /** The title as displayed: its first 50 characters. */
  function DisplayTitle(title: string): (r: string)
    ensures |r| == if |title| < Column then |title| else Column
    ensures r <= title
  {
    if |title| <= Column then title else title[..Column]
  }

  /** Number of dots after the title: 50 minus the title's length in bytes, or none when that is negative. */
  function PaddingWidth(title: string): (n: nat)
    ensures n <= Column
    ensures |Encode(title)| <= Column ==> |Encode(title)| + n == Column
    ensures |Encode(title)| >= Column ==> n == 0
  {
    if |Encode(title)| <= Column then Column - |Encode(title)| else 0
  }

  function Dots(n: nat): (r: string)
    ensures |r| == n && forall i :: 0 <= i < n ==> r[i] == '.'
  {
    if n == 0 then [] else Dots(n - 1) + "."
  }

  /** `[<upload label> <publish label>]` */
  function Tag(status: UploadStatus, publish: PublishStatus): string {
    "[" + UploadLabel(status) + " " + PublishLabel(publish) + "]"
  }

  /** The line printed for a document before any request is sent. */
  function StatusLine(meta: Frontmatter, status: UploadStatus): string {
    DisplayTitle(meta.title) + Dots(PaddingWidth(meta.title)) + Tag(status, PublishStatusOf(meta))
  }

  /**
    The layout of a status line: the displayed title, then one dot per column
    of padding, then `[`, the upload label, a space, the publish label and `]`.
  */
  lemma StatusLineLayout(meta: Frontmatter, status: UploadStatus)
    ensures var r, t, n := StatusLine(meta, status), DisplayTitle(meta.title), PaddingWidth(meta.title);
            var u, p := UploadLabel(status), PublishLabel(PublishStatusOf(meta));
            var k := |t| + n;
            && |r| == k + |u| + |p| + 3
            && r[..|t|] == t
            && (forall i :: |t| <= i < k ==> r[i] == '.')
            && r[k] == '[' && r[k + 1..k + 1 + |u|] == u && r[k + 1 + |u|] == ' '
            && r[k + 2 + |u|..|r| - 1] == p && r[|r| - 1] == ']'
  {
    Layout(DisplayTitle(meta.title), Dots(PaddingWidth(meta.title)),
           UploadLabel(status), PublishLabel(PublishStatusOf(meta)));
  }

  /** Where each piece of `t + d + "[" + u + " " + p + "]"` sits. */
  lemma Layout(t: string, d: string, u: string, p: string)
    requires forall i :: 0 <= i < |d| ==> d[i] == '.'
    ensures var r, k := t + d + ("[" + u + " " + p + "]"), |t| + |d|;
            && |r| == k + |u| + |p| + 3
            && r[..|t|] == t
            && (forall i :: |t| <= i < k ==> r[i] == '.')
            && r[k] == '[' && r[k + 1..k + 1 + |u|] == u && r[k + 1 + |u|] == ' '
            && r[k + 2 + |u|..|r| - 1] == p && r[|r| - 1] == ']'
  {
    var r, k := t + d + ("[" + u + " " + p + "]"), |t| + |d|;
    forall i | |t| <= i < k ensures r[i] == '.' {
      assert r[i] == d[i - |t|];
    }
    assert r[k..] == "[" + u + " " + p + "]";
  }

  /**
    The tag never starts past column 50, and starts exactly there when the
    title is at least 50 characters long or is plain ASCII; a shorter title
    with multi-byte characters gets fewer dots than it has columns left.
  */
  lemma PaddingAlignment(title: string)
    ensures |DisplayTitle(title)| + PaddingWidth(title) <= Column
    ensures |DisplayTitle(title)| + PaddingWidth(title) == Column <==> |title| >= Column || IsAscii(title)
  {
    ByteLength(title);
  }

  /** The line shows the status and the publish state: two lines for the same document differ when either differs. */
  lemma StatusLineDeterminesStatus(meta: Frontmatter, s: UploadStatus, t: UploadStatus)
    ensures StatusLine(meta, s) == StatusLine(meta, t) <==> UploadLabel(s) == UploadLabel(t)
    ensures UploadLabel(s) == UploadLabel(t) <==> (s.Uploaded? && t.Uploaded?) || (s.Posting? && t.Posting?) || (s.Syncing? && t.Syncing?)
  {
    var prefix := DisplayTitle(meta.title) + Dots(PaddingWidth(meta.title));
    var p := PublishLabel(PublishStatusOf(meta));
    var ls, lt := UploadLabel(s), UploadLabel(t);
    if StatusLine(meta, s) == StatusLine(meta, t) {
      var a, b := prefix + Tag(s, PublishStatusOf(meta)), prefix + Tag(t, PublishStatusOf(meta));
      assert a == b;
      assert |ls| == |lt|;
      forall k | 0 <= k < |ls| ensures ls[k] == lt[k] {
        assert a[|prefix| + 1 + k] == ls[k];
        assert b[|prefix| + 1 + k] == lt[k];
      }
    }
  }
}
