/**
 * The default registry server: the name to connect to, the other names it
 * is known by, and the repository prefix for one-component image names.
 */
module RegistryDefaults {
  import opened Wrappers
  import opened Chars
  import ImageRegistry
  import ImageRepository
  import ImageNames

  type Registry = ImageRegistry.Registry
  type Repository = ImageRepository.Repository

  datatype DefaultRegistry = DefaultRegistry(
    network_name: Registry,
    also_known_as: seq<Registry>,
    library_prefix: Option<Repository>)
  {
    predicate Valid() {
      && network_name.Valid()
      && (forall k :: 0 <= k < |also_known_as| ==> also_known_as[k].Valid())
      && (library_prefix.Some? ==> library_prefix.value.Valid())
    }

    /** No registry at all, or one whose string is this server's name or one of its other names. */
    predicate IsDefault(registry: Option<Registry>) {
      match registry
      case None => true
      case Some(r) =>
        || r.AsStr() == network_name.AsStr()
        || exists k :: 0 <= k < |also_known_as| && also_known_as[k].AsStr() == r.AsStr()
    }

    /**
     * The server and the repository path an image name is fetched from:
     * a registry other than this one is used as it is, with no prefix; a
     * one-component repository gets the library prefix in front.
     */
    function ResolveImageName(image: ImageNames.ImageName): (r: (Registry, Repository))
      requires Valid() && image.Valid()
      requires image.RegistryStr().Some? ==> ImageRegistry.PortFits(image.RegistryStr().value)
      ensures r.0.Valid() && r.1.Valid()
    {
      var registry := ImageNames.RegistryOf(image);
      var settings := if IsDefault(registry) then this else FromRegistry(registry.value);
      var image_repo := ImageNames.RepositoryOf(image);
      var complete_repo :=
        if HasSecondComponent(image_repo) then image_repo
        else if settings.library_prefix.None? then image_repo
        else settings.library_prefix.value.Join(image_repo);
      (settings.network_name, complete_repo)
    }
  }

  /** `iter().nth(1).is_some()`: the iterator yields a second component. */
  predicate HasSecondComponent(repo: Repository) {
    repo.Iter().Next().1.Next().0.Some?
  }

  /** A plain registry as settings of its own: no other names, no prefix. */
  function FromRegistry(network_name: Registry): (d: DefaultRegistry)
    ensures d.network_name == network_name && d.also_known_as == [] && d.library_prefix.None?
    ensures d.IsDefault(Some(network_name))
  {
    DefaultRegistry(network_name, [], None)
  }

  /** The second component exists exactly when the path has a slash-separated second part. */
  lemma SecondComponent(repo: Repository)
    ensures HasSecondComponent(repo) <==> |Split(repo.serialized, '/')| >= 2
  {
    var it := repo.Iter();
    var (x, next) := it.Next();
    assert x.Some?;
    assert it.Collect() == [x.value] + next.Collect();
    var (y, last) := next.Next();
    if y.Some? {
      assert next.Collect() == [y.value] + last.Collect();
    } else {
      assert next.Collect() == [];
    }
  }

  /** `is_default` is membership: the network name or an entry of the other names. */
  lemma IsDefaultMembership(d: DefaultRegistry, r: Registry)
    requires d.Valid() && r.Valid()
    ensures d.IsDefault(Some(r)) <==> r == d.network_name || r in d.also_known_as
  {
    ImageRegistry.RegistryEquality(r, d.network_name);
    if r in d.also_known_as {
      var k :| 0 <= k < |d.also_known_as| && d.also_known_as[k] == r;
      assert d.also_known_as[k].AsStr() == r.AsStr();
    }
    if d.IsDefault(Some(r)) && r != d.network_name {
      var k :| 0 <= k < |d.also_known_as| && d.also_known_as[k].AsStr() == r.AsStr();
      ImageRegistry.RegistryEquality(r, d.also_known_as[k]);
    }
  }

  /** Every set of settings counts "no registry" as its own. */
  lemma NoRegistryIsDefault(d: DefaultRegistry)
    ensures d.IsDefault(None)
  {
  }

  /**
   * How a name resolves: the registry is this server unless the name gives
   * another one; the repository is the name's own unless it has a single
   * component and the chosen settings carry a prefix, which goes in front.
   */
  lemma Resolution(d: DefaultRegistry, image: ImageNames.ImageName)
    requires d.Valid() && image.Valid()
    requires image.RegistryStr().Some? ==> ImageRegistry.PortFits(image.RegistryStr().value)
    ensures var reg := ImageNames.RegistryOf(image);
      var r := d.ResolveImageName(image);
      var repo := image.RepositoryStr();
      && (d.IsDefault(reg) ==> r.0 == d.network_name)
      && (!d.IsDefault(reg) ==> r.0 == reg.value && r.1.AsStr() == repo)
      && (|Split(repo, '/')| >= 2 ==> r.1.AsStr() == repo)
      && (d.IsDefault(reg) && |Split(repo, '/')| == 1 && d.library_prefix.Some? ==>
            Split(r.1.AsStr(), '/') == Split(d.library_prefix.value.AsStr(), '/') + [repo])
      && (d.IsDefault(reg) && d.library_prefix.None? ==> r.1.AsStr() == repo)
  {
    var image_repo := ImageNames.RepositoryOf(image);
    SecondComponent(image_repo);
  }

  /** The built-in settings: `registry-1.docker.io`, also known as `docker.io`, prefix `library`. */
  function New(): (d: DefaultRegistry)
    ensures d.Valid()
    ensures d.network_name.AsStr() == "registry-1" + "." + "docker" + "." + "io"
    ensures |d.also_known_as| == 1 && d.also_known_as[0].AsStr() == "docker" + "." + "io"
    ensures d.library_prefix.Some? && d.library_prefix.value.AsStr() == "library"
  {
    BuiltInNames();
    var network_name := ImageRegistry.Parse("registry-1" + "." + "docker" + "." + "io");
    var aka := ImageRegistry.Parse("docker" + "." + "io");
    var prefix := ImageRepository.Parse("library");
    DefaultRegistry(network_name.value, [aka.value], Some(prefix.value))
  }

  /** `docker.io` parses as a registry. */
  lemma DockerIoParses()
    ensures ImageRegistry.PortFits("docker" + "." + "io")
    ensures ImageRegistry.Parse("docker" + "." + "io").Ok?
  {
    ImageRegistry.LabelIsDomain("io");
    ImageRegistry.ExtendDomain("docker", "io");
    ImageRegistry.DomainOnly("docker" + "." + "io");
  }

  /** `registry-1.docker.io` parses as a registry. */
  lemma NetworkNameParses()
    ensures ImageRegistry.PortFits("registry-1" + "." + "docker" + "." + "io")
    ensures ImageRegistry.Parse("registry-1" + "." + "docker" + "." + "io").Ok?
  {
    var d := "docker" + "." + "io";
    ImageRegistry.LabelIsDomain("io");
    ImageRegistry.ExtendDomain("docker", "io");
    ImageRegistry.ExtendDomain("registry-1", d);
    assert "registry-1" + "." + "docker" + "." + "io" == "registry-1" + "." + d;
    ImageRegistry.DomainOnly("registry-1" + "." + d);
  }

  /** The three built-in names parse. */
  lemma BuiltInNames()
    ensures ImageRegistry.PortFits("registry-1" + "." + "docker" + "." + "io")
    ensures ImageRegistry.Parse("registry-1" + "." + "docker" + "." + "io").Ok?
    ensures ImageRegistry.PortFits("docker" + "." + "io")
    ensures ImageRegistry.Parse("docker" + "." + "io").Ok?
    ensures ImageRepository.Parse("library").Ok?
  {
    DockerIoParses();
    NetworkNameParses();
    ImageRepository.RunIsComponent("library");
    ImageRepository.ComponentIsRepo("library");
  }
}
