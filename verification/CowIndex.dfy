/** The copy-on-write index: a published version, and writers that modify a private copy. */
module CowIndex {
  /** What the program shares: the published contents, how many writers hold a copy, how often one was published. */
  datatype Shared<I> = Shared(published: I, activeWriters: nat, commits: nat)

  function Cloned<I>(s: Shared<I>): Shared<I> {
    s.(activeWriters := s.activeWriters + 1)
  }

  function Committed<I>(s: Shared<I>, copy: I): Shared<I>
    requires s.activeWriters > 0
  {
    s.(published := copy, activeWriters := s.activeWriters - 1, commits := s.commits + 1)
  }

  function Discarded<I>(s: Shared<I>): Shared<I>
    requires s.activeWriters > 0
  {
    s.(activeWriters := s.activeWriters - 1)
  }

  /** One version of the index; readers share it by reference. */
  class Version<I> {
    var contents: I

    constructor (contents: I)
      ensures this.contents == contents
    {
      this.contents := contents;
    }
  }

  class CowShardexIndex<I> {
    var inner: Version<I>
    var activeWriters: nat
    var commitCount: nat

    ghost function State(): Shared<I>
      reads this, inner
    {
      Shared(inner.contents, activeWriters, commitCount)
    }

    constructor (index: I)
      ensures fresh(inner) && State() == Shared(index, 0, 0)
    {
      inner := new Version(index);
      activeWriters, commitCount := 0, 0;
    }

    /** The current version; it is never modified in place. */
    method Read() returns (snapshot: Version<I>)
      ensures snapshot == inner
    {
      snapshot := inner;
    }

    method CloneForWrite() returns (writer: IndexWriter<I>)
      modifies this
      ensures fresh(writer) && writer.target == this
      ensures writer.modified != null && fresh(writer.modified) && writer.modified.contents == inner.contents
      ensures inner == old(inner) && State() == Cloned(old(State()))
    {
      var current := Read();
      var copy := new Version(current.contents);
      activeWriters := activeWriters + 1;
      writer := new IndexWriter(copy, this);
    }
  }

  class IndexWriter<I> {
    var modified: Version?<I>
    const target: CowShardexIndex<I>

    constructor (copy: Version<I>, target: CowShardexIndex<I>)
      ensures modified == copy && this.target == target
    {
      modified := copy;
      this.target := target;
    }

    /** An edit touches the private copy only. */
    method Edit(contents: I)
      requires modified != null && modified != target.inner
      modifies modified
      ensures modified.contents == contents
      ensures target.State() == old(target.State())
    {
      modified.contents := contents;
    }

    /** Publishes the private copy; the version published before keeps its contents. */
    method CommitChanges()
      requires modified != null && target.activeWriters > 0
      modifies this, target
      ensures modified == null && target.inner == old(modified)
      ensures target.State() == Committed(old(target.State()), old(modified.contents))
      ensures old(target.inner).contents == old(target.inner.contents)
    {
      target.inner := modified;
      modified := null;
      target.commitCount := target.commitCount + 1;
      Drop();
    }

    method Discard()
      requires target.activeWriters > 0
      modifies this, target
      ensures modified == null && target.inner == old(target.inner)
      ensures target.State() == Discarded(old(target.State()))
    {
      modified := null;
      Drop();
    }

    method Drop()
      requires target.activeWriters > 0
      modifies target`activeWriters
      ensures target.activeWriters == old(target.activeWriters) - 1
    {
      target.activeWriters := target.activeWriters - 1;
    }
  }
}
