/** The parts of an EC2 description that the two instance lookup scripts read. */
module Ec2 {
  /** A resource tag, as the EC2 API reports it: `{'Key': ..., 'Value': ...}`. */
  datatype Tag = Tag(key: string, value: string)

  /** The tag key both scripts look for. */
  const NameKey: string := "Name"

  /** EC2 lets each tag key occur at most once on a resource. */
  predicate UniqueKeys(tags: seq<Tag>)
  {
    forall i, j :: 0 <= i < j < |tags| ==> tags[i].key != tags[j].key
  }
}
