/**
 * The record shapes of the engine: `util/Employee.kt` (a mutable data class,
 * shared by reference between the registry and the track map),
 * `util/TrackedFaces.kt` (one output record per detected face), the
 * `Candidate` pair of the best-candidate search, and a detected face as the
 * engine receives it.
 */
module Records {
  import opened Wrappers
  import opened Embeddings

  /** An integer rectangle; the engine only carries it through. */
  datatype Rect = Rect(left: int, top: int, right: int, bottom: int)

  /**
   * A face as the engine sees it: the detector's tracking id (absent when the
   * detector gave none), the bounding box already scaled to the screen, and the
   * embedding the recognition network computed for the crop.
   */
  datatype Detection = Detection(trackingId: Option<int>, screenBox: Rect, embedding: Embedding)

  /** An enrolled employee. `lastTracked` and `framesTracked` are updated in place. */
  class Employee {
    const name: string
    const id: int
    var embeddings: seq<Embedding>
    var lastTracked: int
    var framesTracked: int

    constructor (name: string, id: int, embeddings: seq<Embedding>, lastTracked: int, framesTracked: int)
      ensures this.name == name && this.id == id && this.embeddings == embeddings
      ensures this.lastTracked == lastTracked && this.framesTracked == framesTracked
    {
      this.name := name;
      this.id := id;
      this.embeddings := embeddings;
      this.lastTracked := lastTracked;
      this.framesTracked := framesTracked;
    }

    /**
     * Data-class `equals`: the five properties compare equal, the embedding
     * lists element by element with `Embedding.equals`.
     */
    function SameData(other: Employee): (r: bool)
      reads this, other
      ensures r <==>
        && name == other.name && id == other.id
        && lastTracked == other.lastTracked && framesTracked == other.framesTracked
        && |embeddings| == |other.embeddings|
        && forall i :: 0 <= i < |embeddings| ==> Equals(embeddings[i], other.embeddings[i])
    {
      && name == other.name && id == other.id
      && embeddings == other.embeddings
      && lastTracked == other.lastTracked && framesTracked == other.framesTracked
    }
  }

  /** One output record: tracking id (0 when absent), screen box, employee if resolved, embedding. */
  datatype TrackedFace = TrackedFace(currentId: int, box: Rect, employee: Option<Employee>, embedding: Embedding)

  /** The best match found so far by the registry search. */
  datatype Candidate = Candidate(distance: Score, employee: Employee)
}
