/**
 `retrieve_chapters`: the choice between generating chapters from the
 transcript and aligning the video's own chapter list with it. Both
 chaptering routines live outside this model and are taken as parameters.
 */
module Chapters {

  /** `automatic` stands for `get_automatic_chapters`, `align` for
      `align_chapters`; `ytChapters` is the video's chapter list. */
  function RetrieveChapters<M, C>(text: string, ytChapters: seq<M>,
                                  automatic: string -> C,
                                  align: (string, seq<M>) -> C): (r: C)
    ensures |ytChapters| == 0 ==> r == automatic(text)
    ensures |ytChapters| > 0 ==> r == align(text, ytChapters)
  {
    if |ytChapters| == 0 then automatic(text) else align(text, ytChapters)
  }
}
