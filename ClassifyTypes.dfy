/** The records exchanged by the classification pipeline. */
module ClassifyTypes {
  import opened Wrappers

  /** The two confidence labels, `'low' | 'high'`. */
  datatype Conf = Low | High

  /** A named sub-group of a split's pages. */
  datatype Partition = Partition(name: string, pages: seq<int>, conf: Conf)

  /** The pages assigned to one category; `partitions` is `null`/`None` when absent. */
  datatype Split = Split(name: string, pages: seq<int>, conf: Conf, partitions: Option<seq<Partition>>)

  datatype ClassifyResult = ClassifyResult(splits: seq<Split>)

  /** A caller-supplied category; only the list's length matters to the core. */
  datatype Category = Category(name: string, description: string, partitionKey: Option<string>)

  /** An inclusive, 1-based page range `[start, end]`. */
  type PageRange = (int, int)

  /** A split's own name, pages and confidence, without its partitions: the fields
      both levels of the merge group by. */
  function Head(s: Split): Partition {
    Partition(s.name, s.pages, s.conf)
  }
}
