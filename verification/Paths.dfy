/** Path components and the text of an absolute path. */
module Paths {
  import opened TextLists

  predicate IsComponent(component: string) {
    && component != "" && component != "." && component != ".."
    && forall i | 0 <= i < |component| :: component[i] != '/' && component[i] != '\0'
  }

  predicate AreComponents(components: seq<string>) {
    forall i | 0 <= i < |components| :: IsComponent(components[i])
  }

  /** The text of an absolute path. */
  function PathText(components: seq<string>): string {
    "/" + Join(components, '/')
  }

  lemma ComponentsFree(components: seq<string>)
    requires AreComponents(components)
    ensures forall p | p in components :: Free(p, '/')
  {
    forall p | p in components ensures Free(p, '/') {
      assert IsComponent(p);
    }
  }
}
