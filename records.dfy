/** The records the pipeline passes between stages: a paper dictionary and
    one discussion result. */
module Records {
  import opened Common

  /** One discussion result as `find_tweets_for_paper` builds it. */
  datatype Tweet = Tweet(
    text: string,
    authorName: string,
    authorHandle: string,
    likes: int,
    retweets: int,
    url: string)

  /** A paper dictionary. The feed client sets the first seven keys; the
      stages after it add the rest. An optional field that is `None` is a key
      the dictionary does not have; `projectUrl == Some(None)` is the key
      present with the value `None`. */
  datatype Paper = Paper(
    id: string,
    title: string,
    abstractText: string,
    comment: Option<string>,
    authors: Option<seq<string>>,
    url: string,
    pdfUrl: Option<string>,
    projectUrl: Option<Option<string>>,
    aiSummary: Option<string>,
    starRating: Option<string>,
    authorsFull: Option<string>,
    localPdf: Option<string>,
    pdfPreview: Option<string>,
    tweets: Option<seq<Tweet>>)

  /** `paper.get('comment', '')`. */
  function CommentText(p: Paper): string
  {
    match p.comment
    case Some(c) => c
    case None => ""
  }
}
