/** The closed shape of package names. */
module PackageIdentifier {
  predicate IsNameCharacter(c: char) {
    'a' <= c <= 'z' || 'A' <= c <= 'Z' || '0' <= c <= '9' || c in {'@', '.', '_', '+', '-'}
  }

  predicate IsValidPackageName(name: string) {
    name != "" && name != "." && name != ".." && name[0] != '-' && forall c | c in name :: IsNameCharacter(c)
  }
}
