/** Values shared by every widget: an optional value, and the blog record the
    content API returns. */
module Common {

  /** A value that may be absent (a JavaScript `undefined`, `null` or falsy field). */
  datatype Option<+T> = None | Some(value: T)

  /** The fields of a blog record that the widgets' logic reads. An absent
      `tags` array is the empty sequence: every use of `tags` in the widgets
      treats a missing array and an empty one alike. */
  datatype Blog = Blog(
    id: string,
    slug: string,
    title: string,
    meta: string,
    category: string,
    tags: seq<string>)

  /** The outcome of one request for a list of blogs: the request or the
      decoding of its body threw, the response was not ok, or it was ok and
      carried `data.blogs` (possibly absent). */
  datatype Response = Threw | NotOk | Ok(blogs: Option<seq<Blog>>)

  /** `res.data?.blogs || []`: the list an ok response carries. */
  function PoolOf(r: Response): seq<Blog>
    requires r.Ok?
  {
    match r.blogs
    case None => []
    case Some(bs) => bs
  }
}
