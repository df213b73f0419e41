/** The values the placement algorithm reads: nucleotide substitutions, the
    per-node position-to-base maps and the sequenced samples. */
module Types {

  /** A nucleotide substitution on a branch: ancestral base, genome position,
      derived base. */
  datatype Mut = Mut(anc: char, pos: nat, der: char)

  /** A node's accumulated state: genome position to derived base. */
  type MutMap = map<nat, char>

  /** One substitution of a sample against the reference sequence. */
  datatype SampleMut = SampleMut(pos: nat, queryNuc: char)

  /** The fields of a sequence-analysis result that placement reads.
      An absent `errors` list is the empty one. */
  datatype Sample = Sample(
    seqName: string,
    clade: string,
    qcStatus: string,
    mutations: seq<SampleMut>,
    errors: seq<string>)

  /** Why a placement run fails. */
  datatype PlaceError =
    | VersionMismatch(got: string)
    | NoTree
    | Unparsable(token: string)
    | Inconsistent(token: string, anc: char, previous: char)

  /** No two substitutions of the sample share a position. */
  predicate DistinctPositions(muts: seq<SampleMut>) {
    forall a, b :: 0 <= a < b < |muts| ==> muts[a].pos != muts[b].pos
  }

  /** The positions a sample mutates. */
  function SamplePositions(muts: seq<SampleMut>): set<nat> {
    set k | 0 <= k < |muts| :: muts[k].pos
  }
}
